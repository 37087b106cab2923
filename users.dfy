/**
 * The e-mail-user registry as functions of the user table: creation on first
 * touch with document-id probing, back-filling of missing keys, the
 * unsubscribe list and the cooldown stamps. `hashOf` stands for Python's
 * `hash` on strings, fixed for the life of the process.
 */
module Users {
  import opened Wrappers
  import opened Text
  import opened Stamps
  import opened Records
  import opened Sorting

  /** Document ids are probed in `[1, DocIdLimit)`; reaching the limit wraps to 1. */
  const DocIdLimit := 2147483647
  /** `_stable_doc_id` reduces the hash modulo this. */
  const HashRange := 2147000000

  /** `_stable_doc_id`: `abs(hash) % 2147000000 + 1`. */
  function StableDocId(h: int): (r: int)
    ensures 1 <= r <= HashRange < DocIdLimit
  {
    (if h < 0 then -h else h) % HashRange + 1
  }

  /** One probing step: `doc_id += 1`, back to 1 once it reaches the limit. */
  function NextDocId(d: int): int {
    if d + 1 >= DocIdLimit then 1 else d + 1
  }

  /** How many probing steps lead from `d` back to `base`; `base` itself is a whole cycle away. */
  function Dist(d: int, base: int): int {
    if d < base then base - d else base - d + (DocIdLimit - 1)
  }

  /** `email_users_db.get(doc_id=d)`. */
  function DocAt(us: seq<UserDoc>, d: int): (r: Option<EmailUser>)
    ensures r.None? <==> forall i :: 0 <= i < |us| ==> us[i].docId != d
    ensures r.Some? ==> exists i :: 0 <= i < |us| && us[i].docId == d && us[i].user == r.value
  {
    if us == [] then None
    else if us[0].docId == d then Some(us[0].user)
    else
      var r := DocAt(us[1..], d);
      assert r.Some? ==> exists i :: 0 <= i < |us| && us[i].docId == d && us[i].user == r.value by {
        if r.Some? {
          var i :| 0 <= i < |us[1..]| && us[1..][i].docId == d && us[1..][i].user == r.value;
          assert us[i + 1] == us[1..][i];
        }
      }
      r
  }

  /** The index of the first document for the address: `email_users_db.get(EmailUser.email == e)`. */
  function FindUser(us: seq<UserDoc>, e: string): (r: Option<nat>)
    ensures r.None? <==> forall i :: 0 <= i < |us| ==> us[i].user.email != e
    ensures r.Some? ==> r.value < |us| && us[r.value].user.email == e
                        && forall i :: 0 <= i < r.value ==> us[i].user.email != e
  {
    if us == [] then None
    else if us[0].user.email == e then Some(0)
    else
      match FindUser(us[1..], e)
      case None => None
      case Some(k) => Some(k + 1)
  }

  /**
   * The probing loop of `_ensure_email_user_record` from `d`: stop at the first
   * id that is free or already holds the address; fail once the next id would
   * be `base` again.
   */
  function Probe(us: seq<UserDoc>, e: string, base: int, d: int): Option<int>
    requires 1 <= base < DocIdLimit && 1 <= d < DocIdLimit
    decreases Dist(d, base)
  {
    var existing := DocAt(us, d);
    if existing.None? || existing.value.email == e then Some(d)
    else
      var next := NextDocId(d);
      if next == base then None else Probe(us, e, base, next)
  }

  /**
   * Probing returns an id that is free or holds the address, and fails only
   * when every id it has not yet passed, up to `base`, is taken by another address.
   */
  lemma {:induction false} ProbeSound(us: seq<UserDoc>, e: string, base: int, d: int)
    requires 1 <= base < DocIdLimit && 1 <= d < DocIdLimit
    ensures Probe(us, e, base, d).Some? ==>
              var p := Probe(us, e, base, d).value;
              1 <= p < DocIdLimit && (DocAt(us, p).None? || DocAt(us, p).value.email == e)
    ensures Probe(us, e, base, d).None? ==>
              forall s :: 1 <= s < DocIdLimit && Dist(s, base) <= Dist(d, base) ==>
                            DocAt(us, s).Some? && DocAt(us, s).value.email != e
    decreases Dist(d, base)
  {
    var existing := DocAt(us, d);
    if existing.Some? && existing.value.email != e {
      var next := NextDocId(d);
      if next == base {
        assert Dist(d, base) == 1;
        forall s | 1 <= s < DocIdLimit && Dist(s, base) <= Dist(d, base)
          ensures s == d
        {
        }
      } else {
        ProbeSound(us, e, base, next);
        assert Dist(next, base) == Dist(d, base) - 1;
        forall s | 1 <= s < DocIdLimit && Dist(s, base) == Dist(d, base)
          ensures s == d
        {
        }
      }
    }
  }

  /** A probe from `base` fails only when all 2147483646 ids hold other addresses. */
  lemma ProbeFailsOnlyWhenFull(us: seq<UserDoc>, e: string, base: int)
    requires 1 <= base < DocIdLimit
    requires Probe(us, e, base, base).None?
    ensures forall s :: 1 <= s < DocIdLimit ==> DocAt(us, s).Some? && DocAt(us, s).value.email != e
  {
    ProbeSound(us, e, base, base);
  }

  /**
   * The probing loop itself: start at `base`, step past ids held by other
   * addresses, and give up when the step comes back to `base`.
   */
  method ProbeDocId(us: seq<UserDoc>, e: string, base: int) returns (r: Option<int>)
    requires 1 <= base < DocIdLimit
    ensures r == Probe(us, e, base, base)
    ensures r.Some? ==> 1 <= r.value < DocIdLimit && (DocAt(us, r.value).None? || DocAt(us, r.value).value.email == e)
  {
    ProbeSound(us, e, base, base);
    var d := base;
    var existing := DocAt(us, d);
    while existing.Some? && existing.value.email != e
      invariant 1 <= d < DocIdLimit
      invariant existing == DocAt(us, d)
      invariant Probe(us, e, base, d) == Probe(us, e, base, base)
      decreases Dist(d, base)
    {
      d := NextDocId(d);
      if d == base {
        return None;
      }
      existing := DocAt(us, d);
    }
    return Some(d);
  }

  /** A table and the value an operation on it returned. */
  datatype Registered<T> = Registered(users: seq<UserDoc>, result: T)

  /** A new document: the address and the three keys set to `None`. */
  function Fresh(e: string): EmailUser {
    EmailUser(e, Value(None), Value(None), Value(None))
  }

  predicate HasMissing(u: EmailUser) {
    u.lastEmailAt.Missing? || u.nextEmailAt.Missing? || u.unsubscribedAt.Missing?
  }

  /**
   * `_ensure_email_user_record`: `Returned(None)` for an empty address;
   * otherwise the document for the lower-cased address, created with the
   * three keys `None` when there is none (at the id the probe finds) and
   * back-filled with `None` for every key it lacks. `Raised` when probing
   * finds no id.
   */
  function EnsureUser(us: seq<UserDoc>, email: string, hashOf: string -> int): Registered<Reply<Option<EmailUser>>> {
    if email == "" then Registered(us, Returned(None))
    else
      var e := Lower(email);
      match FindUser(us, e)
      case Some(i) =>
        if HasMissing(us[i].user) then
          var filled := UpdateUsers(us, e, FillMissing(us[i].user));
          Registered(filled, Returned(Some(filled[i].user)))
        else Registered(us, Returned(Some(us[i].user)))
      case None =>
        var base := StableDocId(hashOf(e));
        match Probe(us, e, base, base)
        case None => Registered(us, Raised)
        case Some(d) => Registered(us + [UserDoc(d, Fresh(e))], Returned(Some(Fresh(e))))
  }

  /** The registry invariant: ids in range and distinct, at most one document per address. */
  ghost predicate RegistryValid(us: seq<UserDoc>) {
    && (forall i :: 0 <= i < |us| ==> 1 <= us[i].docId < DocIdLimit)
    && (forall i, j :: 0 <= i < j < |us| ==> us[i].docId != us[j].docId && us[i].user.email != us[j].user.email)
  }

  /** `u2` is `u` with some missing keys filled with `None` and nothing else changed. */
  predicate Backfilled(u: EmailUser, u2: EmailUser) {
    && u2.email == u.email
    && (u2.lastEmailAt == u.lastEmailAt || (u.lastEmailAt.Missing? && u2.lastEmailAt == Value(None)))
    && (u2.nextEmailAt == u.nextEmailAt || (u.nextEmailAt.Missing? && u2.nextEmailAt == Value(None)))
    && (u2.unsubscribedAt == u.unsubscribedAt || (u.unsubscribedAt.Missing? && u2.unsubscribedAt == Value(None)))
  }

  /**
   * What `_ensure_email_user_record` guarantees on a valid table: an empty
   * address changes nothing; otherwise the result is the one document for the
   * lower-cased address, with no key missing; existing documents keep their
   * ids, addresses and present values; a document is added only when the
   * address had none; it raises only when every id is taken; the table stays valid.
   */
  lemma EnsureUserSpec(us: seq<UserDoc>, email: string, hashOf: string -> int)
    requires RegistryValid(us)
    ensures var r := EnsureUser(us, email, hashOf);
            && RegistryValid(r.users)
            && (email == "" ==> r == Registered(us, Returned(None)))
            && (email != "" && r.result.Returned? ==>
                  && r.result.value.Some?
                  && r.result.value.value.email == Lower(email)
                  && !HasMissing(r.result.value.value)
                  && FindUser(r.users, Lower(email)).Some?
                  && r.users[FindUser(r.users, Lower(email)).value].user == r.result.value.value)
            && |us| <= |r.users| <= |us| + 1
            && (forall i :: 0 <= i < |us| ==> r.users[i].docId == us[i].docId && Backfilled(us[i].user, r.users[i].user))
            && (|r.users| == |us| + 1 ==> FindUser(us, Lower(email)).None? && r.users[|us|].user == Fresh(Lower(email)))
            && (r.result.Raised? ==> email != "" && r.users == us
                                     && forall s :: 1 <= s < DocIdLimit ==> DocAt(us, s).Some?)
  {
    if email != "" {
      var e := Lower(email);
      match FindUser(us, e)
      case Some(i) =>
        if HasMissing(us[i].user) {
          EnsureExisting(us, e, i);
          var filled := UpdateUsers(us, e, FillMissing(us[i].user));
          assert EnsureUser(us, email, hashOf) == Registered(filled, Returned(Some(filled[i].user)));
        } else {
          assert EnsureUser(us, email, hashOf) == Registered(us, Returned(Some(us[i].user)));
        }
      case None =>
        var base := StableDocId(hashOf(e));
        ProbeSound(us, e, base, base);
        match Probe(us, e, base, base)
        case None =>
          assert EnsureUser(us, email, hashOf) == Registered(us, Raised);
        case Some(d) =>
          EnsureCreated(us, e, d);
          assert EnsureUser(us, email, hashOf) == Registered(us + [UserDoc(d, Fresh(e))], Returned(Some(Fresh(e))));
    }
  }

  /** Back-filling the address's only document touches no other document and leaves no key missing. */
  lemma EnsureExisting(us: seq<UserDoc>, e: string, i: nat)
    requires RegistryValid(us) && FindUser(us, e) == Some(i)
    ensures var f := UpdateUsers(us, e, FillMissing(us[i].user));
            && RegistryValid(f)
            && FindUser(f, e) == Some(i)
            && f[i].user.email == e && !HasMissing(f[i].user)
            && forall j :: 0 <= j < |us| ==> f[j].docId == us[j].docId && Backfilled(us[j].user, f[j].user)
  {
    var w := FillMissing(us[i].user);
    var f := UpdateUsers(us, e, w);
    UpdateUsersKeepsFind(us, e, w, e);
    UpdateUsersFound(us, e, w);
    FillMissingBackfills(us[i].user);
    forall j | 0 <= j < |us|
      ensures f[j].docId == us[j].docId && Backfilled(us[j].user, f[j].user)
    {
      if j != i {
        assert us[j].user.email != e;
        assert f[j] == us[j];
      }
    }
  }

  /** Filling a document's missing keys back-fills it and leaves none missing. */
  lemma FillMissingBackfills(u: EmailUser)
    ensures var u2 := ApplyUserWrite(FillMissing(u), u);
            Backfilled(u, u2) && !HasMissing(u2)
  {
  }

  /** A new document at a free id keeps the table valid and becomes the one found for its address. */
  lemma EnsureCreated(us: seq<UserDoc>, e: string, d: int)
    requires RegistryValid(us) && FindUser(us, e).None?
    requires 1 <= d < DocIdLimit && (DocAt(us, d).None? || DocAt(us, d).value.email == e)
    ensures var c := us + [UserDoc(d, Fresh(e))];
            RegistryValid(c) && FindUser(c, e) == Some(|us|)
  {
    FindUserAppend(us, UserDoc(d, Fresh(e)), e);
    DocAtFound(us, d);
  }

  /** A document found by id is also found by its address. */
  lemma {:induction false} DocAtFound(us: seq<UserDoc>, d: int)
    ensures DocAt(us, d).Some? ==> FindUser(us, DocAt(us, d).value.email).Some?
  {
    if us != [] && us[0].docId != d {
      DocAtFound(us[1..], d);
    }
  }

  /** Appending the first document for an address makes it the one found. */
  lemma FindUserAppend(us: seq<UserDoc>, doc: UserDoc, e: string)
    requires FindUser(us, e).None? && doc.user.email == e
    ensures FindUser(us + [doc], e) == Some(|us|)
  {
    var us2 := us + [doc];
    assert us2[|us|].user.email == e;
    assert forall i :: 0 <= i < |us| ==> us2[i] == us[i];
  }

  /**
   * `after` differs from `before` only by back-filled keys and by new
   * documents whose three keys are `None`: no stamp was written.
   */
  ghost predicate OnlyTouched(before: seq<UserDoc>, after: seq<UserDoc>) {
    && |before| <= |after|
    && (forall i :: 0 <= i < |before| ==> after[i].docId == before[i].docId && Backfilled(before[i].user, after[i].user))
    && (forall i :: |before| <= i < |after| ==> after[i].user == Fresh(after[i].user.email))
  }

  lemma OnlyTouchedRefl(us: seq<UserDoc>)
    ensures OnlyTouched(us, us)
  {
  }

  lemma OnlyTouchedTransitive(a: seq<UserDoc>, b: seq<UserDoc>, c: seq<UserDoc>)
    requires OnlyTouched(a, b) && OnlyTouched(b, c)
    ensures OnlyTouched(a, c)
  {
    forall i | |a| <= i < |c|
      ensures c[i].user == Fresh(c[i].user.email)
    {
      if i < |b| {
        assert Backfilled(b[i].user, c[i].user);
      }
    }
  }

  /** Touching the registry never moves the document an address already had. */
  lemma OnlyTouchedKeepsFind(a: seq<UserDoc>, b: seq<UserDoc>, e: string)
    requires OnlyTouched(a, b) && FindUser(a, e).Some?
    ensures FindUser(b, e) == FindUser(a, e)
  {
    var k := FindUser(a, e).value;
    assert b[k].user.email == e;
    assert forall i :: 0 <= i < k ==> b[i].user.email == a[i].user.email;
  }

  /** A successful touch of a non-empty address leaves a document for it and keeps the table valid. */
  lemma EnsureUserRegisters(us: seq<UserDoc>, email: string, hashOf: string -> int)
    requires RegistryValid(us) && email != "" && EnsureUser(us, email, hashOf).result.Returned?
    ensures RegistryValid(EnsureUser(us, email, hashOf).users)
    ensures FindUser(EnsureUser(us, email, hashOf).users, Lower(email)).Some?
  {
    EnsureUserSpec(us, email, hashOf);
  }

  /** Touching the registry writes no stamp and keeps it valid. */
  lemma EnsureUserOnlyTouches(us: seq<UserDoc>, email: string, hashOf: string -> int)
    requires RegistryValid(us)
    ensures RegistryValid(EnsureUser(us, email, hashOf).users)
    ensures OnlyTouched(us, EnsureUser(us, email, hashOf).users)
  {
    EnsureUserSpec(us, email, hashOf);
  }

  /** `is_unsubscribed` writes no stamp either. */
  lemma IsUnsubscribedOnlyTouches(us: seq<UserDoc>, email: string, hashOf: string -> int)
    requires RegistryValid(us)
    ensures RegistryValid(IsUnsubscribed(us, email, hashOf).users)
    ensures OnlyTouched(us, IsUnsubscribed(us, email, hashOf).users)
  {
    EnsureUserOnlyTouches(us, email, hashOf);
  }

  /** Touching an address a second time finds what the first touch left and changes nothing. */
  lemma EnsureUserIdempotent(us: seq<UserDoc>, email: string, hashOf: string -> int)
    requires RegistryValid(us)
    requires EnsureUser(us, email, hashOf).result.Returned?
    ensures var r := EnsureUser(us, email, hashOf);
            EnsureUser(r.users, email, hashOf) == r
  {
    EnsureUserSpec(us, email, hashOf);
  }

  /** `is_unsubscribed` on a document: a truthy `unsubscribed_at` that parses. */
  predicate Unsubscribed(u: EmailUser) {
    Truthy(Get(u.unsubscribedAt)) && ParseIso(Get(u.unsubscribedAt)).Some?
  }

  /** `is_unsubscribed`: touches the registry, then reads the document. */
  function IsUnsubscribed(us: seq<UserDoc>, email: string, hashOf: string -> int): Registered<Reply<bool>> {
    if email == "" then Registered(us, Returned(false))
    else
      var ens := EnsureUser(us, email, hashOf);
      match ens.result
      case Raised => Registered(ens.users, Raised)
      case Returned(None) => Registered(ens.users, Returned(false))
      case Returned(Some(u)) => Registered(ens.users, Returned(Unsubscribed(u)))
  }

  /** `add_unsubscribed_email`: stamps `unsubscribed_at` on the address's document. */
  function AddUnsubscribed(us: seq<UserDoc>, email: string, at: int, hashOf: string -> int): Registered<Reply<()>> {
    if email == "" then Registered(us, Returned(()))
    else
      var ens := EnsureUser(us, email, hashOf);
      match ens.result
      case Raised => Registered(ens.users, Raised)
      case Returned(None) => Registered(ens.users, Returned(()))
      case Returned(Some(u)) => Registered(UpdateUsers(ens.users, u.email, Unsubscribe(at)), Returned(()))
  }

  /**
   * `remove_unsubscribed_email`: `false` for an empty address or an unset
   * `unsubscribed_at`; otherwise clears it and answers `true`.
   */
  function RemoveUnsubscribed(us: seq<UserDoc>, email: string, hashOf: string -> int): Registered<Reply<bool>> {
    if email == "" then Registered(us, Returned(false))
    else
      var ens := EnsureUser(us, email, hashOf);
      match ens.result
      case Raised => Registered(ens.users, Raised)
      case Returned(None) => Registered(ens.users, Returned(false))
      case Returned(Some(u)) =>
        if !Truthy(Get(u.unsubscribedAt)) then Registered(ens.users, Returned(false))
        else Registered(UpdateUsers(ens.users, u.email, Resubscribe), Returned(true))
  }

  /** `mark_email_user`: `last_email_at := at`, `next_email_at := at + hours`. */
  function MarkEmailUser(us: seq<UserDoc>, email: string, at: int, hours: int, hashOf: string -> int): Registered<Reply<()>> {
    if email == "" then Registered(us, Returned(()))
    else
      var ens := EnsureUser(us, email, hashOf);
      match ens.result
      case Raised => Registered(ens.users, Raised)
      case Returned(None) => Registered(ens.users, Returned(()))
      case Returned(Some(u)) =>
        Registered(UpdateUsers(ens.users, u.email, Cooldown(at, at + hours * Hour)), Returned(()))
  }

  /** The document for the lower-cased address, once the registry has been touched. */
  function UserFor(us: seq<UserDoc>, email: string): Option<EmailUser> {
    match FindUser(us, Lower(email))
    case Some(i) => Some(us[i].user)
    case None => None
  }

  /** An update by address leaves every address, id and hence every lookup by address alone. */
  lemma UpdateUsersKeepsFind(us: seq<UserDoc>, e: string, w: UserWrite, e2: string)
    ensures FindUser(UpdateUsers(us, e, w), e2) == FindUser(us, e2)
    ensures RegistryValid(us) ==> RegistryValid(UpdateUsers(us, e, w))
  {
    var r := UpdateUsers(us, e, w);
    assert forall i :: 0 <= i < |us| ==> r[i].user.email == us[i].user.email && r[i].docId == us[i].docId;
    match FindUser(us, e2)
    case None =>
    case Some(k) =>
  }

  /** The write reaches the address's first document. */
  lemma UpdateUsersFound(us: seq<UserDoc>, e: string, w: UserWrite)
    requires FindUser(us, e).Some?
    ensures var k := FindUser(us, e).value;
            FindUser(UpdateUsers(us, e, w), e) == Some(k) && UpdateUsers(us, e, w)[k].user == ApplyUserWrite(w, us[k].user)
  {
    UpdateUsersKeepsFind(us, e, w, e);
  }

  /**
   * After a successful touch on a valid table, the address has its document,
   * with no key missing, and the table is still valid.
   */
  lemma EnsureUserFound(us: seq<UserDoc>, email: string, hashOf: string -> int)
    requires RegistryValid(us) && email != ""
    requires EnsureUser(us, email, hashOf).result.Returned?
    ensures var r := EnsureUser(us, email, hashOf);
            && RegistryValid(r.users)
            && r.result.value.Some?
            && r.result.value.value.email == Lower(email)
            && !HasMissing(r.result.value.value)
            && FindUser(r.users, Lower(email)).Some?
            && r.users[FindUser(r.users, Lower(email)).value].user == r.result.value.value
  {
    EnsureUserSpec(us, email, hashOf);
  }

  /** After `add_unsubscribed_email(e)`, `is_unsubscribed(e)` holds. */
  lemma AddThenIsUnsubscribed(us: seq<UserDoc>, email: string, at: int, hashOf: string -> int)
    requires RegistryValid(us) && email != ""
    requires AddUnsubscribed(us, email, at, hashOf).result.Returned?
    ensures var after := AddUnsubscribed(us, email, at, hashOf).users;
            IsUnsubscribed(after, email, hashOf) == Registered(after, Returned(true))
  {
    var ens := EnsureUser(us, email, hashOf);
    EnsureUserFound(us, email, hashOf);
    var e := Lower(email);
    var u := ens.result.value.value;
    var after := UpdateUsers(ens.users, e, Unsubscribe(at));
    assert AddUnsubscribed(us, email, at, hashOf).users == after;
    UpdateUsersFound(ens.users, e, Unsubscribe(at));
    var k := FindUser(ens.users, e).value;
    var v := after[k].user;
    assert v == u.(unsubscribedAt := Value(Some(Iso(at))));
    assert !HasMissing(v) && Unsubscribed(v);
    assert EnsureUser(after, email, hashOf) == Registered(after, Returned(Some(v)));
  }

  /**
   * `remove_unsubscribed_email` on an empty address answers `false` and
   * changes nothing. Otherwise it answers `true` exactly when the document had
   * a truthy `unsubscribed_at`; then that key becomes `None`, the rest of the
   * document and every other document stay as the registry touch left them,
   * and `is_unsubscribed` no longer holds. Without a truthy stamp only the
   * registry touch happened.
   */
  lemma RemoveUnsubscribedSpec(us: seq<UserDoc>, email: string, hashOf: string -> int)
    requires RegistryValid(us)
    requires EnsureUser(us, email, hashOf).result.Returned?
    ensures email == "" ==> RemoveUnsubscribed(us, email, hashOf) == Registered(us, Returned(false))
    ensures email != "" ==>
            var ens := EnsureUser(us, email, hashOf);
            var r := RemoveUnsubscribed(us, email, hashOf);
            var u := ens.result.value.value;
            && r.result == Returned(Truthy(Get(u.unsubscribedAt)))
            && RegistryValid(r.users)
            && (!Truthy(Get(u.unsubscribedAt)) ==> r.users == ens.users)
            && (Truthy(Get(u.unsubscribedAt)) ==>
                  && UserFor(r.users, email) == Some(ApplyUserWrite(Resubscribe, u))
                  && |r.users| == |ens.users|
                  && forall i :: 0 <= i < |ens.users| && ens.users[i].user.email != Lower(email) ==> r.users[i] == ens.users[i])
            && IsUnsubscribed(r.users, email, hashOf) == Registered(r.users, Returned(false))
  {
    if email != "" {
      var ens := EnsureUser(us, email, hashOf);
      EnsureUserFound(us, email, hashOf);
      EnsureUserRegisters(us, email, hashOf);
      var e := Lower(email);
      var u := ens.result.value.value;
      if Truthy(Get(u.unsubscribedAt)) {
        var after := UpdateUsers(ens.users, e, Resubscribe);
        assert RemoveUnsubscribed(us, email, hashOf) == Registered(after, Returned(true));
        UpdateUsersKeepsFind(ens.users, e, Resubscribe, e);
        UpdateUsersFound(ens.users, e, Resubscribe);
        var k := FindUser(after, e).value;
        assert after[k].user == ApplyUserWrite(Resubscribe, ens.users[k].user);
      } else {
        EnsureUserIdempotent(us, email, hashOf);
      }
    }
  }

  /**
   * After `mark_email_user(e, at)` the document holds `at` and
   * `at + HOURS_BETWEEN_EMAILS`, and nothing else of it changed; the table
   * keeps its length and every document of another address stays as the
   * registry touch left it.
   */
  lemma MarkEmailUserSpec(us: seq<UserDoc>, email: string, at: int, hours: int, hashOf: string -> int)
    requires RegistryValid(us) && email != ""
    requires EnsureUser(us, email, hashOf).result.Returned?
    ensures MarkEmailUser(us, email, at, hours, hashOf).result == Returned(())
    ensures RegistryValid(MarkEmailUser(us, email, at, hours, hashOf).users)
    ensures UserFor(MarkEmailUser(us, email, at, hours, hashOf).users, email)
            == Some(ApplyUserWrite(Cooldown(at, at + hours * Hour), EnsureUser(us, email, hashOf).result.value.value))
    ensures var ens := EnsureUser(us, email, hashOf).users;
            var r := MarkEmailUser(us, email, at, hours, hashOf).users;
            && |r| == |ens|
            && forall i :: 0 <= i < |ens| && ens[i].user.email != Lower(email) ==> r[i] == ens[i]
  {
    var ens := EnsureUser(us, email, hashOf);
    EnsureUserFound(us, email, hashOf);
    var e := Lower(email);
    var w := Cooldown(at, at + hours * Hour);
    var after := UpdateUsers(ens.users, e, w);
    assert MarkEmailUser(us, email, at, hours, hashOf) == Registered(after, Returned(()));
    UpdateUsersKeepsFind(ens.users, e, w, e);
    UpdateUsersFound(ens.users, e, w);
  }

  /** `mark_email_user` keeps the registry valid, whatever it returns. */
  lemma MarkEmailUserValid(us: seq<UserDoc>, email: string, at: int, hours: int, hashOf: string -> int)
    requires RegistryValid(us)
    ensures RegistryValid(MarkEmailUser(us, email, at, hours, hashOf).users)
  {
    var ens := EnsureUser(us, email, hashOf);
    EnsureUserOnlyTouches(us, email, hashOf);
    if email != "" && ens.result.Returned? && ens.result.value.Some? {
      UpdateUsersKeepsFind(ens.users, ens.result.value.value.email, Cooldown(at, at + hours * Hour), "");
    }
  }

  /** Once the registry has been touched for an address, stamping its cooldown cannot raise. */
  lemma MarkAfterEnsure(us: seq<UserDoc>, email: string, at: int, hours: int, hashOf: string -> int)
    requires RegistryValid(us) && email != ""
    requires EnsureUser(us, email, hashOf).result.Returned?
    ensures MarkEmailUser(EnsureUser(us, email, hashOf).users, email, at, hours, hashOf).result == Returned(())
  {
    EnsureUserIdempotent(us, email, hashOf);
    EnsureUserFound(us, email, hashOf);
  }

  /** The indices of the documents with a truthy `unsubscribed_at`. */
  ghost function UnsubscribedRows(us: seq<UserDoc>): set<int> {
    set i | 0 <= i < |us| && Truthy(Get(us[i].user.unsubscribedAt))
  }

  /** The documents with a truthy `unsubscribed_at`, in store order. */
  function UnsubscribedDocs(us: seq<UserDoc>): (r: seq<EmailUser>)
    ensures forall u :: u in r ==> Truthy(Get(u.unsubscribedAt))
    ensures forall u :: u in r ==> exists i :: 0 <= i < |us| && us[i].user == u
    ensures forall i :: 0 <= i < |us| && Truthy(Get(us[i].user.unsubscribedAt)) ==> us[i].user in r
  {
    if us == [] then []
    else
      var rest := UnsubscribedDocs(us[1..]);
      assert forall i :: 1 <= i < |us| ==> us[i] == us[1..][i - 1];
      if Truthy(Get(us[0].user.unsubscribedAt)) then [us[0].user] + rest else rest
  }

  /** One more document adds itself to the selection exactly when it is unsubscribed. */
  lemma {:induction false} UnsubscribedSnoc(us: seq<UserDoc>, d: UserDoc)
    ensures UnsubscribedDocs(us + [d]) == UnsubscribedDocs(us) + (if Truthy(Get(d.user.unsubscribedAt)) then [d.user] else [])
  {
    if us != [] {
      assert (us + [d])[1..] == us[1..] + [d];
      UnsubscribedSnoc(us[1..], d);
    }
  }

  /** The selection has one entry per unsubscribed document. */
  lemma {:induction false} UnsubscribedCount(us: seq<UserDoc>)
    ensures |UnsubscribedDocs(us)| == |UnsubscribedRows(us)|
  {
    if us != [] {
      var n := |us| - 1;
      UnsubscribedCount(us[..n]);
      assert us[..n] + [us[n]] == us;
      UnsubscribedSnoc(us[..n], us[n]);
      UnsubscribedRowsSnoc(us);
    }
  }

  /** One more document adds its index to the unsubscribed rows exactly when it is unsubscribed. */
  lemma UnsubscribedRowsSnoc(us: seq<UserDoc>)
    requires us != []
    ensures |UnsubscribedRows(us)| == |UnsubscribedRows(us[..|us| - 1])| + (if Truthy(Get(us[|us| - 1].user.unsubscribedAt)) then 1 else 0)
  {
    var n := |us| - 1;
    var t := Truthy(Get(us[n].user.unsubscribedAt));
    assert UnsubscribedRows(us) == UnsubscribedRows(us[..n]) + (if t then {n} else {});
    assert n !in UnsubscribedRows(us[..n]);
  }

  /** Ascending order of addresses. */
  function ByEmail(): (EmailUser, EmailUser) -> bool {
    (a: EmailUser, b: EmailUser) => StrLeq(a.email, b.email)
  }

  lemma ByEmailTotal()
    ensures Total(ByEmail())
  {
    forall a: EmailUser, b: EmailUser ensures ByEmail()(a, b) || ByEmail()(b, a) {
      StrLeqTotal(a.email, b.email);
    }
  }

  /** `list_unsubscribed_emails`: the unsubscribed documents sorted by address. */
  function ListUnsubscribed(us: seq<UserDoc>): (r: seq<EmailUser>)
    ensures multiset(r) == multiset(UnsubscribedDocs(us))
    ensures forall i, j :: 0 <= i < j < |r| ==> StrLeq(r[i].email, r[j].email)
  {
    ByEmailTotal();
    var r := Sort(UnsubscribedDocs(us), ByEmail());
    forall i, j | 0 <= i < j < |r| ensures StrLeq(r[i].email, r[j].email) {
      forall a: EmailUser, b: EmailUser, c: EmailUser | ByEmail()(a, b) && ByEmail()(b, c)
        ensures ByEmail()(a, c)
      {
        StrLeqTransitive(a.email, b.email, c.email);
      }
      SortedPairwise(r, ByEmail(), i, j);
    }
    r
  }

  /**
   * Every listed entry is an unsubscribed document of the registry, every
   * unsubscribed document is listed, and the list has one entry per
   * unsubscribed document.
   */
  lemma ListUnsubscribedSpec(us: seq<UserDoc>)
    ensures forall u :: u in ListUnsubscribed(us) ==> Truthy(Get(u.unsubscribedAt))
    ensures forall u :: u in ListUnsubscribed(us) ==> exists i :: 0 <= i < |us| && us[i].user == u
    ensures forall i :: 0 <= i < |us| && Truthy(Get(us[i].user.unsubscribedAt)) ==> us[i].user in ListUnsubscribed(us)
    ensures |ListUnsubscribed(us)| == |UnsubscribedRows(us)|
  {
    UnsubscribedCount(us);
    var r := ListUnsubscribed(us);
    assert |r| == |multiset(r)| == |multiset(UnsubscribedDocs(us))|;
    assert forall u :: u in r <==> u in multiset(r);
    assert forall u :: u in UnsubscribedDocs(us) <==> u in multiset(UnsubscribedDocs(us));
  }
}
