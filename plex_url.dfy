/**
 * `transform_plex_url`: the browser link is the stored Plex URL itself; the
 * mobile link is rebuilt from the first `/server/<id>/details?key=<key>` in it
 * as `plex://server/<id>/details?key=<key>`, the way
 * `re.search(r'/server/([^/]+)/details\?key=([^&]+)', url)` finds it.
 */
module PlexUrl {
  import opened Wrappers

  const ServerPart := "/server/"
  const DetailsPart := "/details?key="
  const MobilePrefix := "plex://server/"

  datatype Links = Links(browser: Option<string>, mobile: Option<string>)

  /** The two groups of the pattern: the server id and the metadata key. */
  datatype Target = Target(server: string, key: string)

  /** `[^/]+` and `[^&]+`: a non-empty run of characters other than `stop`. */
  predicate RunFree(s: string, stop: char) {
    s != [] && forall k :: 0 <= k < |s| ==> s[k] != stop
  }

  /** A server id and key the pattern can capture. */
  predicate WellFormed(t: Target) {
    RunFree(t.server, '/') && RunFree(t.key, '&')
  }

  /** The text the pattern matches for the captured groups `t`. */
  function Matched(t: Target): string {
    ServerPart + t.server + DetailsPart + t.key
  }

  /** The mobile link built from the captured groups. */
  function MobileLink(t: Target): string {
    MobilePrefix + t.server + DetailsPart + t.key
  }

  /** `Matched(t)` occurs in `s` at index `i`. */
  predicate OccursAt(s: string, i: nat, t: Target) {
    i + |Matched(t)| <= |s| && s[i..i + |Matched(t)|] == Matched(t)
  }

  /** The key of an occurrence of `t` at `i` ends the text or is followed by `&`: nothing more of it is left. */
  predicate KeyEnds(s: string, i: nat, t: Target) {
    i + |Matched(t)| == |s| || (i + |Matched(t)| < |s| && s[i + |Matched(t)|] == '&')
  }

  /**
   * What `re.search` returns: the occurrence at the smallest index, with the
   * greedy key. No well-formed occurrence starts before `j`.
   */
  ghost predicate FirstOccurrence(s: string, j: nat, t: Target) {
    && WellFormed(t) && OccursAt(s, j, t) && KeyEnds(s, j, t)
    && forall j2: nat, t2 :: j2 < j && WellFormed(t2) ==> !OccursAt(s, j2, t2)
  }

  predicate HasPrefixAt(s: string, i: nat, p: string) {
    i + |p| <= |s| && s[i..i + |p|] == p
  }

  /** The length of the longest run of characters other than `stop` from index `i`: what a greedy `[^stop]+` consumes. */
  function RunLength(s: string, i: nat, stop: char): (n: nat)
    requires i <= |s|
    ensures i + n <= |s|
    ensures forall k :: i <= k < i + n ==> s[k] != stop
    ensures i + n == |s| || s[i + n] == stop
    decreases |s| - i
  {
    if i == |s| || s[i] == stop then 0 else 1 + RunLength(s, i + 1, stop)
  }

  /** The pattern anchored at index `i`: the greedy groups, when it matches there. */
  function MatchAt(s: string, i: nat): Option<Target>
    requires i <= |s|
  {
    if !HasPrefixAt(s, i, ServerPart) then None
    else
      var j := i + |ServerPart|;
      var k := j + RunLength(s, j, '/');
      if k == j || !HasPrefixAt(s, k, DetailsPart) then None
      else
        var m := k + |DetailsPart|;
        var e := m + RunLength(s, m, '&');
        if e == m then None
        else Some(Target(s[j..k], s[m..e]))
  }

  /**
   * A match found at index `i` is a well-formed occurrence of the pattern
   * there, and its key runs up to the end of the text or to an `&`.
   */
  lemma MatchAtSound(s: string, i: nat)
    requires i <= |s|
    ensures MatchAt(s, i).Some? ==> WellFormed(MatchAt(s, i).value) && OccursAt(s, i, MatchAt(s, i).value)
    ensures MatchAt(s, i).Some? ==> KeyEnds(s, i, MatchAt(s, i).value)
  {
    if MatchAt(s, i).Some? {
      var j := i + |ServerPart|;
      var k := j + RunLength(s, j, '/');
      var m := k + |DetailsPart|;
      var e := m + RunLength(s, m, '&');
      assert MatchAt(s, i) == Some(Target(s[j..k], s[m..e]));
      PartsOccur(s, i, j, k, m, e);
    }
  }

  /** Text made of the fixed parts and the two runs between them is an occurrence of the pattern. */
  lemma PartsOccur(s: string, i: nat, j: nat, k: nat, m: nat, e: nat)
    requires i <= j < k <= m < e <= |s|
    requires j == i + |ServerPart| && m == k + |DetailsPart|
    requires HasPrefixAt(s, i, ServerPart) && HasPrefixAt(s, k, DetailsPart)
    requires forall q :: j <= q < k ==> s[q] != '/'
    requires forall q :: m <= q < e ==> s[q] != '&'
    ensures WellFormed(Target(s[j..k], s[m..e])) && OccursAt(s, i, Target(s[j..k], s[m..e]))
  {
    var t := Target(s[j..k], s[m..e]);
    assert s[i..e] == s[i..j] + s[j..k] + s[k..m] + s[m..e];
    assert |Matched(t)| == e - i;
  }

  /** `re.search`: the leftmost index from `i` on where the pattern matches. */
  function Search(s: string, i: nat): (r: Option<Target>)
    requires i <= |s|
    decreases |s| - i
  {
    match MatchAt(s, i)
    case Some(t) => Some(t)
    case None => if i == |s| then None else Search(s, i + 1)
  }

  /** `transform_plex_url`. An empty or absent URL gives no links at all. */
  function TransformPlexUrl(url: string): Links {
    if url == "" then Links(None, None)
    else match Search(url, 0)
      case Some(t) => Links(Some(url), Some(MobileLink(t)))
      case None => Links(Some(url), None)
  }

  /** Wherever a match is found, the captured groups are well formed and occur in the URL. */
  lemma {:induction false} SearchSound(s: string, i: nat)
    requires i <= |s|
    ensures Search(s, i).Some? ==> WellFormed(Search(s, i).value)
                                   && exists j :: i <= j <= |s| && OccursAt(s, j, Search(s, i).value)
    decreases |s| - i
  {
    MatchAtSound(s, i);
    if MatchAt(s, i).None? && i < |s| {
      SearchSound(s, i + 1);
    }
  }

  /** The first index from `i` on where the pattern matches, or the end of the text. */
  ghost function FirstMatchIndex(s: string, i: nat): (j: nat)
    requires i <= |s|
    ensures i <= j <= |s|
    ensures j == |s| || MatchAt(s, j).Some?
    decreases |s| - i
  {
    if i == |s| || MatchAt(s, i).Some? then i else FirstMatchIndex(s, i + 1)
  }

  /** The pattern matches nowhere between `i` and the first match index. */
  lemma {:induction false} BeforeFirstMatch(s: string, i: nat, k: nat)
    requires i <= |s| && i <= k < FirstMatchIndex(s, i)
    ensures MatchAt(s, k).None?
    decreases k - i
  {
    if i < k {
      BeforeFirstMatch(s, i + 1, k);
    }
  }

  /** `re.search` returns the match at the first index from `i` on where the pattern matches. */
  lemma SearchFinds(s: string, i: nat)
    requires i <= |s|
    ensures Search(s, i) == MatchAt(s, FirstMatchIndex(s, i))
  {
    var j := FirstMatchIndex(s, i);
    forall k | i <= k < j
      ensures MatchAt(s, k).None?
    {
      BeforeFirstMatch(s, i, k);
    }
    SearchSkips(s, i, j);
    assert Search(s, j) == MatchAt(s, j);
  }

  /** What the search finds is the first occurrence of the pattern, with the greedy key. */
  lemma SearchFirst(s: string)
    ensures Search(s, 0).Some? ==> exists j: nat :: j <= |s| && FirstOccurrence(s, j, Search(s, 0).value)
  {
    SearchFinds(s, 0);
    if Search(s, 0).Some? {
      var t := Search(s, 0).value;
      var j := FirstMatchIndex(s, 0);
      MatchAtSound(s, j);
      forall j2: nat, t2 | j2 < j && WellFormed(t2)
        ensures !OccursAt(s, j2, t2)
      {
        if OccursAt(s, j2, t2) {
          BeforeFirstMatch(s, 0, j2);
          MatchAtOccurrence(s, j2, t2);
        }
      }
      assert FirstOccurrence(s, j, t);
    }
  }

  /** Splitting a slice of `s` that spells `x + y` into the slices spelling `x` and `y`. */
  lemma SliceSplit(s: string, i: nat, x: string, y: string)
    requires i + |x| + |y| <= |s| && s[i..i + |x| + |y|] == x + y
    ensures s[i..i + |x|] == x && s[i + |x|..i + |x| + |y|] == y
  {
    var w := s[i..i + |x| + |y|];
    assert s[i..i + |x|] == w[..|x|];
    assert s[i + |x|..i + |x| + |y|] == w[|x|..];
  }

  /** A greedy run over the characters of `w` stops exactly after `w` when `stop` follows it. */
  lemma {:induction false} RunLengthExact(s: string, a: nat, stop: char, w: string)
    requires a + |w| <= |s| && s[a..a + |w|] == w
    requires forall k :: 0 <= k < |w| ==> w[k] != stop
    requires a + |w| == |s| || s[a + |w|] == stop
    ensures RunLength(s, a, stop) == |w|
    decreases |w|
  {
    if w != [] {
      assert s[a] == w[0];
      assert s[a + 1..a + 1 + |w[1..]|] == w[1..];
      RunLengthExact(s, a + 1, stop, w[1..]);
    }
  }

  /** The pieces an occurrence of the pattern at `j` is made of. */
  lemma OccurrenceParts(s: string, j: nat, t: Target)
    requires OccursAt(s, j, t)
    ensures HasPrefixAt(s, j, ServerPart)
    ensures s[j + |ServerPart|..j + |ServerPart| + |t.server|] == t.server
    ensures HasPrefixAt(s, j + |ServerPart| + |t.server|, DetailsPart)
    ensures s[j + |ServerPart| + |t.server| + |DetailsPart|..j + |Matched(t)|] == t.key
  {
    SliceSplit(s, j, ServerPart + t.server + DetailsPart, t.key);
    SliceSplit(s, j, ServerPart + t.server, DetailsPart);
    SliceSplit(s, j, ServerPart, t.server);
  }

  /**
   * An occurrence of the pattern at `j` means the pattern matches at `j`,
   * whatever the key's length; it captures exactly `t` when the key is not
   * followed by more of its characters.
   */
  lemma MatchAtOccurrence(s: string, j: nat, t: Target)
    requires WellFormed(t) && OccursAt(s, j, t)
    ensures MatchAt(s, j).Some?
    ensures j + |Matched(t)| == |s| || s[j + |Matched(t)|] == '&' ==> MatchAt(s, j) == Some(t)
  {
    OccurrenceParts(s, j, t);
    assert |Matched(t)| == |ServerPart| + |t.server| + |DetailsPart| + |t.key|;
    MatchAtParts(s, j, t);
  }

  /** The pieces of an occurrence of `t` at `j`, as `OccurrenceParts` gives them. */
  predicate Pieces(s: string, j: nat, t: Target) {
    && j + |ServerPart| + |t.server| + |DetailsPart| + |t.key| <= |s|
    && HasPrefixAt(s, j, ServerPart)
    && s[j + |ServerPart|..j + |ServerPart| + |t.server|] == t.server
    && HasPrefixAt(s, j + |ServerPart| + |t.server|, DetailsPart)
    && s[j + |ServerPart| + |t.server| + |DetailsPart|..j + |ServerPart| + |t.server| + |DetailsPart| + |t.key|] == t.key
  }

  /** `MatchAtOccurrence` from the pieces of the occurrence. */
  lemma MatchAtParts(s: string, j: nat, t: Target)
    requires WellFormed(t) && Pieces(s, j, t)
    ensures MatchAt(s, j).Some?
    ensures var e := j + |ServerPart| + |t.server| + |DetailsPart| + |t.key|;
            e == |s| || s[e] == '&' ==> MatchAt(s, j) == Some(t)
  {
    var a := j + |ServerPart|;
    var b := a + |t.server|;
    var c := b + |DetailsPart|;
    var e := c + |t.key|;
    ServerRunExact(s, j, t);
    assert s[c] != '&' by {
      assert s[c..e][0] == t.key[0];
    }
    var n2 := RunLength(s, c, '&');
    MatchAtGroups(s, j, b, c + n2);
    if e == |s| || s[e] == '&' {
      KeyRunExact(s, j, t);
    }
  }

  /** The key's run stops exactly at the end of the key when an `&` or the end of the text follows it. */
  lemma KeyRunExact(s: string, j: nat, t: Target)
    requires WellFormed(t) && Pieces(s, j, t)
    requires var e := j + |ServerPart| + |t.server| + |DetailsPart| + |t.key|; e == |s| || s[e] == '&'
    ensures RunLength(s, j + |ServerPart| + |t.server| + |DetailsPart|, '&') == |t.key|
  {
    RunLengthExact(s, j + |ServerPart| + |t.server| + |DetailsPart|, '&', t.key);
  }

  /** The server id's run stops exactly at the `/` of `/details?key=`. */
  lemma ServerRunExact(s: string, j: nat, t: Target)
    requires WellFormed(t) && Pieces(s, j, t)
    ensures RunLength(s, j + |ServerPart|, '/') == |t.server|
  {
    var b := j + |ServerPart| + |t.server|;
    assert s[b] == '/' by {
      assert s[b..b + |DetailsPart|][0] == DetailsPart[0];
    }
    RunLengthExact(s, j + |ServerPart|, '/', t.server);
  }

  /** `MatchAt` when every test of the pattern passes. */
  lemma MatchAtPasses(s: string, i: nat, k: nat, e: nat)
    requires HasPrefixAt(s, i, ServerPart)
    requires k == i + |ServerPart| + RunLength(s, i + |ServerPart|, '/') && k != i + |ServerPart|
    requires HasPrefixAt(s, k, DetailsPart)
    requires e == k + |DetailsPart| + RunLength(s, k + |DetailsPart|, '&') && e != k + |DetailsPart|
    ensures MatchAt(s, i) == Some(Target(s[i + |ServerPart|..k], s[k + |DetailsPart|..e]))
  {
  }

  /** The groups `MatchAt` captures, from the indices where they end. */
  lemma MatchAtGroups(s: string, i: nat, b: nat, e: nat)
    requires HasPrefixAt(s, i, ServerPart)
    requires i + |ServerPart| < b <= |s| && RunLength(s, i + |ServerPart|, '/') == b - (i + |ServerPart|)
    requires HasPrefixAt(s, b, DetailsPart)
    requires b + |DetailsPart| < e <= |s| && RunLength(s, b + |DetailsPart|, '&') == e - (b + |DetailsPart|)
    ensures MatchAt(s, i) == Some(Target(s[i + |ServerPart|..b], s[b + |DetailsPart|..e]))
  {
    MatchAtPasses(s, i, b, e);
  }

  /** `re.search` skips the indices where the pattern does not match. */
  lemma {:induction false} SearchSkips(s: string, i: nat, j: nat)
    requires i <= j <= |s|
    requires forall k :: i <= k < j ==> MatchAt(s, k).None?
    ensures Search(s, i) == Search(s, j)
    decreases j - i
  {
    if i < j {
      SearchSkips(s, i + 1, j);
    }
  }

  /** `re.search` finds a match whenever the pattern occurs at or after `i`. */
  lemma {:induction false} SearchComplete(s: string, i: nat, j: nat, t: Target)
    requires i <= j <= |s| && WellFormed(t) && OccursAt(s, j, t)
    ensures Search(s, i).Some?
    decreases j - i
  {
    if MatchAt(s, i).None? {
      if i == j {
        MatchAtOccurrence(s, j, t);
      } else {
        SearchComplete(s, i + 1, j, t);
      }
    }
  }

  /**
   * Both directions: a mobile link is produced exactly when the URL contains
   * the pattern, and the link is built from the first occurrence, with the
   * key taken up to the next `&` or the end.
   */
  lemma TransformSpec(url: string)
    ensures url == "" ==> TransformPlexUrl(url) == Links(None, None)
    ensures url != "" ==> TransformPlexUrl(url).browser == Some(url)
    ensures TransformPlexUrl(url).mobile.Some? <==>
              exists j, t :: 0 <= j <= |url| && WellFormed(t) && OccursAt(url, j, t)
    ensures TransformPlexUrl(url).mobile.Some? ==>
              exists j: nat, t :: j <= |url| && FirstOccurrence(url, j, t)
                                  && TransformPlexUrl(url).mobile.value == MobileLink(t)
  {
    SearchSound(url, 0);
    SearchFirst(url);
    if exists j, t :: 0 <= j <= |url| && WellFormed(t) && OccursAt(url, j, t) {
      var j, t :| 0 <= j <= |url| && WellFormed(t) && OccursAt(url, j, t);
      SearchComplete(url, 0, j, t);
    }
  }

  /** The pattern cannot match where the text does not start with `/s`. */
  lemma NoMatchAt(s: string, i: nat)
    requires i + 1 < |s| && (s[i] != '/' || s[i + 1] != 's')
    ensures MatchAt(s, i).None?
  {
    if i + |ServerPart| <= |s| {
      var w := s[i..i + |ServerPart|];
      assert w[0] == s[i] && w[1] == s[i + 1];
      assert w != ServerPart;
    }
  }

  /** The mobile link the function builds, fed back in, yields itself as the mobile link. */
  lemma MobileLinkStable(t: Target)
    requires WellFormed(t)
    ensures TransformPlexUrl(MobileLink(t)) == Links(Some(MobileLink(t)), Some(MobileLink(t)))
  {
    var m := MobileLink(t);
    assert m == "plex:/" + Matched(t);
    assert OccursAt(m, 6, t) by {
      assert m[6..6 + |Matched(t)|] == Matched(t);
    }
    assert m[..8] == "plex://s" by {
      assert m[..8] == MobilePrefix[..8];
    }
    forall k | 0 <= k < 6
      ensures MatchAt(m, k).None?
    {
      assert m[k] == m[..8][k] && m[k + 1] == m[..8][k + 1];
      NoMatchAt(m, k);
    }
    SearchSkips(m, 0, 6);
    MatchAtOccurrence(m, 6, t);
  }
}
