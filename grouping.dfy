/**
 * Which requests are overdue for a reminder: the grouping by recipient that
 * step 4 of `main` builds, and the listing `get_overdue_requests_for_ui`
 * shows. `threshold` is `now - DAYS_SINCE_REQUEST days`.
 */
module Grouping {
  import opened Wrappers
  import opened Text
  import opened Stamps
  import opened Records
  import Users
  import opened Sorting
  import opened Maintenance
  import opened Tables

  /**
   * The filter of `main`: not watched, not sent, not skipped, a media date at
   * or before the threshold, an address, and a title other than "Unknown".
   */
  predicate Overdue(r: RequestRecord, threshold: int) {
    && !Truthy(r.tautulliWatchDate) && !r.emailSent && !r.skipEmail
    && MediaAdded(r).instant.Some? && MediaAdded(r).instant.value <= threshold
    && Strip(r.email) != ""
    && r.title != "" && r.title != "Unknown"
  }

  /** The overdue requests for one recipient key, in store order. */
  function OverdueFor(rs: seq<RequestRecord>, threshold: int, key: string): (r: seq<RequestRecord>)
    ensures |r| <= |rs|
  {
    if rs == [] then []
    else
      var last := rs[|rs| - 1];
      var rest := OverdueFor(rs[..|rs| - 1], threshold, key);
      if Overdue(last, threshold) && Key(last) == key then rest + [last] else rest
  }

  /** A recipient's list holds exactly the overdue requests carrying that key. */
  lemma {:induction false} OverdueForMembers(rs: seq<RequestRecord>, threshold: int, key: string)
    ensures forall x :: x in OverdueFor(rs, threshold, key) <==> x in rs && Overdue(x, threshold) && Key(x) == key
  {
    if rs != [] {
      var front := rs[..|rs| - 1];
      var last := rs[|rs| - 1];
      OverdueForMembers(front, threshold, key);
      assert rs == front + [last];
      forall x
        ensures x in OverdueFor(rs, threshold, key) <==> x in rs && Overdue(x, threshold) && Key(x) == key
      {
        assert x in rs <==> x in front || x == last;
      }
    }
  }

  /** `overdue_by_email.setdefault(key, []).append(...)` over the requests in store order. */
  function Grouped(rs: seq<RequestRecord>, threshold: int): map<string, seq<RequestRecord>> {
    if rs == [] then map[]
    else
      var g := Grouped(rs[..|rs| - 1], threshold);
      var last := rs[|rs| - 1];
      if Overdue(last, threshold) then
        g[Key(last) := (if Key(last) in g then g[Key(last)] else []) + [last]]
      else g
  }

  /**
   * The grouping partitions the overdue requests by their lower-cased,
   * stripped address: a key is present exactly when some overdue request has
   * it, and its list is that recipient's overdue requests in store order.
   */
  lemma {:induction false} GroupedSpec(rs: seq<RequestRecord>, threshold: int)
    ensures forall key :: key in Grouped(rs, threshold) <==> OverdueFor(rs, threshold, key) != []
    ensures forall key :: key in Grouped(rs, threshold) ==> Grouped(rs, threshold)[key] == OverdueFor(rs, threshold, key)
  {
    if rs != [] {
      var front := rs[..|rs| - 1];
      GroupedSpec(front, threshold);
      var g := Grouped(front, threshold);
      var last := rs[|rs| - 1];
      forall key
        ensures key in Grouped(rs, threshold) <==> OverdueFor(rs, threshold, key) != []
        ensures key in Grouped(rs, threshold) ==> Grouped(rs, threshold)[key] == OverdueFor(rs, threshold, key)
      {
        if Overdue(last, threshold) && Key(last) == key {
          assert OverdueFor(rs, threshold, key) == OverdueFor(front, threshold, key) + [last];
        } else {
          assert OverdueFor(rs, threshold, key) == OverdueFor(front, threshold, key);
        }
      }
    }
  }

  /** The grouping loop of step 4. */
  method GroupOverdue(rs: seq<RequestRecord>, threshold: int) returns (groups: map<string, seq<RequestRecord>>)
    ensures groups == Grouped(rs, threshold)
  {
    groups := map[];
    var i := 0;
    while i < |rs|
      invariant 0 <= i <= |rs|
      invariant groups == Grouped(rs[..i], threshold)
    {
      var r := rs[i];
      GroupedNext(rs, i, threshold);
      if Overdue(r, threshold) {
        var key := Lower(Strip(r.email));
        var list := if key in groups then groups[key] else [];
        groups := groups[key := list + [r]];
      }
      i := i + 1;
    }
    assert rs[..i] == rs;
  }

  /** One more request appended to the grouping. */
  lemma GroupedNext(rs: seq<RequestRecord>, i: nat, threshold: int)
    requires i < |rs|
    ensures var g := Grouped(rs[..i], threshold);
            var r := rs[i];
            Grouped(rs[..i + 1], threshold)
            == if Overdue(r, threshold) then g[Key(r) := (if Key(r) in g then g[Key(r)] else []) + [r]] else g
  {
    assert rs[..i + 1][..i] == rs[..i] && rs[..i + 1][i] == rs[i];
  }

  /** The filter of the overdue listing; unlike `main`'s it keeps requests without an address. */
  predicate Listed(r: RequestRecord, threshold: int) {
    && !Truthy(r.tautulliWatchDate) && !r.emailSent && !r.skipEmail
    && r.title != "" && r.title != "Unknown"
    && MediaAdded(r).instant.Some? && MediaAdded(r).instant.value <= threshold
  }

  /**
   * The listing loop from request `k` on: the unsubscribe check touches the
   * registry for every unwatched, unsent, unskipped request before the
   * title and date are looked at.
   */
  function UiLoop(us: seq<UserDoc>, rs: seq<RequestRecord>, threshold: int, hashOf: string -> int,
                  k: nat, items: seq<RequestRecord>): Users.Registered<Reply<seq<RequestRecord>>>
    requires k <= |rs|
    decreases |rs| - k
  {
    if k == |rs| then Users.Registered(us, Returned(items))
    else
      var r := rs[k];
      if Truthy(r.tautulliWatchDate) || r.emailSent || r.skipEmail then UiLoop(us, rs, threshold, hashOf, k + 1, items)
      else
        var unsub := Users.IsUnsubscribed(us, Strip(r.email), hashOf);
        match unsub.result
        case Raised => Users.Registered(unsub.users, Raised)
        case Returned(true) => UiLoop(unsub.users, rs, threshold, hashOf, k + 1, items)
        case Returned(false) =>
          UiLoop(unsub.users, rs, threshold, hashOf, k + 1, if Listed(r, threshold) then items + [r] else items)
  }

  /** One step of the listing loop over a request that is still open. */
  lemma UiLoopNext(us: seq<UserDoc>, rs: seq<RequestRecord>, threshold: int, hashOf: string -> int,
                   k: nat, items: seq<RequestRecord>, unsub: Users.Registered<Reply<bool>>)
    requires k < |rs| && !(Truthy(rs[k].tautulliWatchDate) || rs[k].emailSent || rs[k].skipEmail)
    requires unsub == Users.IsUnsubscribed(us, Strip(rs[k].email), hashOf)
    ensures UiLoop(us, rs, threshold, hashOf, k, items)
            == if unsub.result.Raised? then Users.Registered(unsub.users, Raised)
               else UiLoop(unsub.users, rs, threshold, hashOf, k + 1,
                           if !unsub.result.value && Listed(rs[k], threshold) then items + [rs[k]] else items)
  {
  }

  /** `get_overdue_requests_for_ui`: the listed requests, newest media date first. */
  function UiListing(us: seq<UserDoc>, rs: seq<RequestRecord>, threshold: int, hashOf: string -> int)
    : Users.Registered<Reply<seq<RequestRecord>>>
  {
    var l := UiLoop(us, rs, threshold, hashOf, 0, []);
    if l.result.Raised? then l
    else
      NewestFirstTotal();
      Users.Registered(l.users, Returned(Sort(l.result.value, NewestFirst())))
  }

  /** Every listed request passes the listing filter. */
  ghost predicate AllListed(items: seq<RequestRecord>, rs: seq<RequestRecord>, threshold: int) {
    forall x :: x in items ==> x in rs && Listed(x, threshold)
  }

  /** The listing loop keeps the registry valid and writes no stamp. */
  lemma {:induction false} UiLoopTouches(us: seq<UserDoc>, rs: seq<RequestRecord>, threshold: int, hashOf: string -> int,
                                         k: nat, items: seq<RequestRecord>)
    requires k <= |rs| && Users.RegistryValid(us)
    ensures Users.RegistryValid(UiLoop(us, rs, threshold, hashOf, k, items).users)
    ensures Users.OnlyTouched(us, UiLoop(us, rs, threshold, hashOf, k, items).users)
    decreases |rs| - k
  {
    if k == |rs| {
      Users.OnlyTouchedRefl(us);
    } else {
      var r := rs[k];
      if Truthy(r.tautulliWatchDate) || r.emailSent || r.skipEmail {
        assert UiLoop(us, rs, threshold, hashOf, k, items) == UiLoop(us, rs, threshold, hashOf, k + 1, items);
        UiLoopTouches(us, rs, threshold, hashOf, k + 1, items);
      } else {
        var unsub := Users.IsUnsubscribed(us, Strip(r.email), hashOf);
        Users.IsUnsubscribedOnlyTouches(us, Strip(r.email), hashOf);
        if unsub.result.Raised? {
          assert UiLoop(us, rs, threshold, hashOf, k, items).users == unsub.users;
        } else {
          var items2 := if !unsub.result.value && Listed(r, threshold) then items + [r] else items;
          var fin := UiLoop(unsub.users, rs, threshold, hashOf, k + 1, items2);
          assert UiLoop(us, rs, threshold, hashOf, k, items) == fin;
          UiLoopTouches(unsub.users, rs, threshold, hashOf, k + 1, items2);
          Users.OnlyTouchedTransitive(us, unsub.users, fin.users);
        }
      }
    }
  }

  /** What the listing loop lists are stored requests passing its filter. */
  lemma {:induction false} UiLoopListed(us: seq<UserDoc>, rs: seq<RequestRecord>, threshold: int, hashOf: string -> int,
                                        k: nat, items: seq<RequestRecord>)
    requires k <= |rs| && AllListed(items, rs, threshold)
    ensures UiLoop(us, rs, threshold, hashOf, k, items).result.Returned? ==>
              AllListed(UiLoop(us, rs, threshold, hashOf, k, items).result.value, rs, threshold)
    decreases |rs| - k
  {
    if k < |rs| {
      var r := rs[k];
      if Truthy(r.tautulliWatchDate) || r.emailSent || r.skipEmail {
        assert UiLoop(us, rs, threshold, hashOf, k, items) == UiLoop(us, rs, threshold, hashOf, k + 1, items);
        UiLoopListed(us, rs, threshold, hashOf, k + 1, items);
      } else {
        var unsub := Users.IsUnsubscribed(us, Strip(r.email), hashOf);
        if unsub.result.Returned? {
          var items2 := if !unsub.result.value && Listed(r, threshold) then items + [r] else items;
          forall x | x in items2 ensures x in rs && Listed(x, threshold) {
            if x !in items {
              assert x == r;
            }
          }
          assert UiLoop(us, rs, threshold, hashOf, k, items) == UiLoop(unsub.users, rs, threshold, hashOf, k + 1, items2);
          UiLoopListed(unsub.users, rs, threshold, hashOf, k + 1, items2);
        }
      }
    }
  }

  /**
   * The listing writes no stamp and keeps the registry valid; what it lists
   * are stored requests passing its filter, newest media date first, and
   * every listed request with an address is one `main` counts as overdue.
   */
  lemma UiListingSpec(us: seq<UserDoc>, rs: seq<RequestRecord>, threshold: int, hashOf: string -> int)
    requires Users.RegistryValid(us)
    ensures Users.RegistryValid(UiListing(us, rs, threshold, hashOf).users)
    ensures Users.OnlyTouched(us, UiListing(us, rs, threshold, hashOf).users)
    ensures UiListing(us, rs, threshold, hashOf).result.Returned? ==>
              var items := UiListing(us, rs, threshold, hashOf).result.value;
              && Sorted(items, NewestFirst())
              && (forall x :: x in items ==> x in rs && Listed(x, threshold))
              && (forall x :: x in items && Strip(x.email) != "" ==> Overdue(x, threshold))
  {
    UiLoopTouches(us, rs, threshold, hashOf, 0, []);
    UiLoopListed(us, rs, threshold, hashOf, 0, []);
    var l := UiLoop(us, rs, threshold, hashOf, 0, []);
    if l.result.Returned? {
      NewestFirstTotal();
      var items := Sort(l.result.value, NewestFirst());
      forall x | x in items ensures x in rs && Listed(x, threshold) {
        assert x in multiset(items);
      }
    }
  }

  /** `get_overdue_requests_for_ui` on the store. */
  method OverdueForUi(st: Store, threshold: int, hashOf: string -> int) returns (r: Reply<seq<RequestRecord>>)
    modifies st
    ensures UiListing(old(st.users), old(st.requests), threshold, hashOf) == Users.Registered(st.users, r)
    ensures st.requests == old(st.requests) && st.sent == old(st.sent) && st.lastWatchCheck == old(st.lastWatchCheck)
  {
    var rs := st.requests;
    var items: seq<RequestRecord> := [];
    var k := 0;
    while k < |rs|
      invariant 0 <= k <= |rs|
      invariant UiLoop(old(st.users), rs, threshold, hashOf, 0, []) == UiLoop(st.users, rs, threshold, hashOf, k, items)
      invariant st.requests == old(st.requests) && st.sent == old(st.sent) && st.lastWatchCheck == old(st.lastWatchCheck)
    {
      var rec := rs[k];
      if !(Truthy(rec.tautulliWatchDate) || rec.emailSent || rec.skipEmail) {
        ghost var before := st.users;
        var unsubscribed := st.IsUnsubscribed(Strip(rec.email), hashOf);
        UiLoopNext(before, rs, threshold, hashOf, k, items, Users.Registered(st.users, unsubscribed));
        if unsubscribed.Raised? {
          return Raised;
        }
        items := if !unsubscribed.value && Listed(rec, threshold) then items + [rec] else items;
      }
      k := k + 1;
    }
    assert UiLoop(old(st.users), rs, threshold, hashOf, 0, []) == Users.Registered(st.users, Returned(items));
    NewestFirstTotal();
    return Returned(Sort(items, NewestFirst()));
  }
}
