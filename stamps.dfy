/**
 * Stored timestamps. A timestamp field holds ISO-8601 text (or nothing);
 * instants are whole seconds. Parsing itself is not modelled: a stored text
 * either parses to an instant (`Iso`) or does not (`Unparsed`).
 */
module Stamps {
  import opened Wrappers

  const Hour := 3600
  const Day := 24 * Hour

  /** A stored timestamp text: one that parses to `instant`, or one that does not parse. */
  datatype RawStamp = Iso(instant: int) | Unparsed(text: string)

  /** Python truthiness of a stored value: present and not the empty string. */
  predicate Truthy(v: Option<RawStamp>) {
    v.Some? && v.value != Unparsed("")
  }

  /**
   * `_parse_iso`: the instant a stored text denotes; `None` stands for the
   * `datetime.min` sentinel returned for an absent, empty or unparseable value.
   */
  function ParseIso(v: Option<RawStamp>): (r: Option<int>)
    ensures r.Some? ==> Truthy(v) && v.value == Iso(r.value)
    ensures v.Some? && v.value.Iso? ==> r == Some(v.value.instant)
  {
    if v.Some? && v.value.Iso? then Some(v.value.instant) else None
  }

  /** What `_resolve_media_added` returns: the parsed instant and the raw value it came from. */
  datatype Resolved = Resolved(instant: Option<int>, raw: Option<RawStamp>)

  /**
   * `_resolve_media_added` over the values of its keys in priority order: the
   * first truthy value wins and is parsed, even when parsing it fails; later
   * keys are then never consulted.
   */
  function ResolveFirst(values: seq<Option<RawStamp>>): (r: Resolved)
    ensures r.instant == ParseIso(r.raw)
    ensures r.raw.None? <==> forall i :: 0 <= i < |values| ==> !Truthy(values[i])
    ensures r.raw.Some? ==> exists k :: 0 <= k < |values| && values[k] == r.raw && Truthy(values[k])
                                        && forall i :: 0 <= i < k ==> !Truthy(values[i])
  {
    if values == [] then Resolved(None, None)
    else if Truthy(values[0]) then Resolved(ParseIso(values[0]), values[0])
    else
      var r := ResolveFirst(values[1..]);
      assert r.raw.Some? ==> exists k :: 0 <= k < |values| && values[k] == r.raw && Truthy(values[k])
                                         && forall i :: 0 <= i < k ==> !Truthy(values[i]) by {
        if r.raw.Some? {
          var k :| 0 <= k < |values[1..]| && values[1..][k] == r.raw && Truthy(values[1..][k])
                   && forall i :: 0 <= i < k ==> !Truthy(values[1..][i]);
          assert values[k + 1] == r.raw && forall i :: 0 <= i < k + 1 ==> !Truthy(values[i]);
        }
      }
      r
  }

  /**
   * `should_run_watch_status_check`: run when no check is recorded, otherwise
   * when at least 24 hours have passed. A recorded value that does not parse
   * reads as `datetime.min`, which is always more than 24 hours ago.
   */
  function ShouldRunWatchStatusCheck(last: Option<RawStamp>, now: int): (run: bool)
    ensures !Truthy(last) ==> run
    ensures last.Some? && last.value.Iso? ==> (run <==> now - last.value.instant >= Day)
    ensures last.Some? && last.value.Unparsed? ==> run
  {
    if !Truthy(last) then true
    else match ParseIso(last)
      case None => true
      case Some(t) => now - t >= Day
  }
}
