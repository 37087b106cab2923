# Forgotten Movies: reminder decision and bookkeeping, in Dafny

This project models the core of `forgotten_movies.py` in ForgottenMovies. That service reminds Plex users by e-mail about titles they requested through the request manager (Overseerr) and never watched according to the watch tracker (Tautulli). The model covers:

- the three TinyDB tables the service keeps: requests, sent e-mails and e-mail users, plus the `last_watch_status_check` setting (module `Records`, and class `Tables.Store` for the store updated in place);
- the timestamp helpers `_parse_iso`, `_resolve_media_added` and `should_run_watch_status_check` (`Stamps`);
- the e-mail-user registry:
  - `_stable_doc_id` and the linear doc-id probe;
  - `_ensure_email_user_record`;
  - the unsubscribe functions, `get_email_user` and `mark_email_user` (`Users`, `Tables.Store`);
- `transform_plex_url` (`PlexUrl`);
- the send decision `_attempt_send_request` with its `SendOutcome` (`Send`), and what it promises (`SendFacts`);
- the daily watch-status check and the metadata refresh (`Maintenance`);
- the ingestion and legacy registration steps of `main` (`Ingest`);
- the overdue filter and grouping of `main`, and the UI listing `get_overdue_requests_for_ui` (`Grouping`);
- the per-user serving loop of `main` with its debug send cap (`Serve`), and what it promises (`ServeFacts`);
- one whole run of `main` (`Run`).

Pure code is modelled as functions. The code that updates the tables step by step is modelled as methods on `Tables.Store`. Each such method is proved equal to a specification function on the value `Records.Db`, and the lemmas state the properties on those functions.

Python's `hash`, the clock and every network answer are parameters:

- `hashOf` stands for Python's `hash`;
- clock readings are `int` seconds;
- watch history, metadata, the request list, template rendering and mail delivery are oracle values of type `Reply<T> = Returned(T) | Raised`. A `Raised` answer models an exception.

Sequences keep TinyDB's store order.

Some behaviour of the code is easy to misread, and the model follows the code as written:

- `main` does not sort a user's candidates. They are tried in store order.
- An exception from an attempt is not caught by `main`; it ends the run (`Halt.Aborted`).
- `_attempt_send_request` never reads the record's own watch date. Only the overdue filter does.
- Sent rows are keyed by the stripped address, which is not lower-cased. User documents are keyed by the lower-cased address.

## Model

| member | source | states |
|---|---|---|
| Text.TrimStart | forgotten_movies.py:746 | the result is a suffix of the input that does not start with white space, and every dropped character is white space |
| Text.TrimEnd | forgotten_movies.py:746 | the result is a prefix of the input that does not end with white space, and every dropped character is white space |
| Text.StripEmpty | forgotten_movies.py:746 | `str.strip()` is empty exactly when every character is white space |
| Text.StripIdempotent | forgotten_movies.py:746 | stripping twice is stripping once |
| Text.LowerIdempotent | forgotten_movies.py:625 | lowering twice is lowering once |
| Text.LowerStripCommute | forgotten_movies.py:1095-1101 | lowering and stripping commute, so the grouping key and the registry key of an address agree |
| Text.LowerTrimStart | forgotten_movies.py:1101 | lowering commutes with dropping leading white space |
| Text.LowerTrimEnd | forgotten_movies.py:1101 | lowering commutes with dropping trailing white space |
| Text.StrLeqTotal | forgotten_movies.py:697 | the string order used by `sorted(..., key=email)` is total |
| Text.StrLeqTransitive | forgotten_movies.py:697 | the string order used by `sorted(..., key=email)` is transitive |
| Stamps.ParseIso | forgotten_movies.py:273-279 | a parsed instant comes only from a truthy ISO value, and every truthy ISO value parses; empty or unparseable input gives the `datetime.min` sentinel |
| Stamps.ResolveFirst | forgotten_movies.py:282-288 | the raw value is the first truthy one in key order, or none when no key holds a truthy value; the instant is the parse of that value even when the parse fails, without falling through to later keys |
| Stamps.ShouldRunWatchStatusCheck | forgotten_movies.py:248-270 | the check runs when no stamp is stored or the stored one does not parse, and otherwise exactly when at least 24 hours have passed |
| Sorting.Insert | forgotten_movies.py:324 | inserting keeps the multiset, adds the element, and keeps a sorted list sorted |
| Sorting.Sort | forgotten_movies.py:324 | the result is a permutation of the input, sorted by the given order |
| Sorting.InsertTies | forgotten_movies.py:324 | inserting an element puts it ahead of every element tied with it and leaves the order of the others tied alike unchanged |
| Sorting.SortStable | forgotten_movies.py:324 | the sort is stable: for any element, the elements tied with it under the order appear in the result in their input order |
| Sorting.SortedPairwise | forgotten_movies.py:324 | in a sorted list every earlier element comes before every later one |
| Records.FirstRowTo | forgotten_movies.py:801-803 | the first sent row to an address is found exactly when one exists, and it is a row to that address |
| Records.CountRowsForZero | forgotten_movies.py:855-869 | a table with no row for a key counts zero rows for it |
| Records.CountRowsForOne | forgotten_movies.py:855-869 | a table with exactly one row for a key counts one |
| Records.UpsertSentExactlyOne | forgotten_movies.py:855-869 | after the upsert there is exactly one row for (address, tmdbId), and it holds the written values; rows for other keys are kept |
| Users.StableDocId | forgotten_movies.py:228-229 | the base doc id lies in 1..2 147 000 000, below the wrap bound 2 147 483 647 |
| Users.DocAt | forgotten_movies.py:631 | `get(doc_id=d)` finds a document exactly when one has that id |
| Users.FindUser | forgotten_movies.py:627 | `get(EmailUser.email == e)` finds the first document with that address, and finds none exactly when none has it |
| Users.ProbeSound | forgotten_movies.py:628-638 | a probe that succeeds lands on a valid id that is free or already holds the address; a probe that fails has seen every id it passed taken by another address |
| Users.ProbeFailsOnlyWhenFull | forgotten_movies.py:632-637 | the probe raises only when every id in 1..2 147 483 646 holds another address |
| Users.ProbeDocId | forgotten_movies.py:630-638 | the `while` loop returns what the probe specification returns: a free id or one holding the address |
| Users.EnsureUserSpec | forgotten_movies.py:622-654 | an empty address gives None and changes nothing. Otherwise the record keyed by the lower-cased address is returned with no missing key. At most one document is added, a fresh one only when none existed. Present keys are never overwritten. The registry stays valid. A raise leaves the table unchanged and happens only when every id is taken |
| Users.EnsureExisting | forgotten_movies.py:645-651 | back-filling an existing document fills exactly the missing keys and keeps the registry valid |
| Users.FillMissingBackfills | forgotten_movies.py:645-651 | the back-fill write sets only the missing keys, and afterwards none is missing |
| Users.EnsureCreated | forgotten_movies.py:640-643 | appending a fresh document on a probed id keeps the registry valid and makes the address findable |
| Users.DocAtFound | forgotten_movies.py:632 | a document found by id is also found by its address |
| Users.FindUserAppend | forgotten_movies.py:642 | an appended document is found by its address when none had it before |
| Users.OnlyTouchedRefl | forgotten_movies.py:622-654 | leaving the registry alone only touches it |
| Users.OnlyTouchedTransitive | forgotten_movies.py:622-654 | two registrations in a row only add or back-fill documents |
| Users.OnlyTouchedKeepsFind | forgotten_movies.py:627 | a document found before adding or back-filling is found at the same place afterwards |
| Users.EnsureUserRegisters | forgotten_movies.py:622-654 | after a successful ensure, the lower-cased address has a document and the registry is valid |
| Users.EnsureUserOnlyTouches | forgotten_movies.py:622-654 | an ensure, even one that raises, only adds or back-fills documents and keeps the registry valid |
| Users.IsUnsubscribedOnlyTouches | forgotten_movies.py:657-664 | `is_unsubscribed` only adds or back-fills documents and keeps the registry valid |
| Users.EnsureUserIdempotent | forgotten_movies.py:622-654 | ensuring the same address again changes nothing and returns the same record |
| Users.UpdateUsersKeepsFind | forgotten_movies.py:650 | an update by address does not move any document and keeps the registry valid |
| Users.UpdateUsersFound | forgotten_movies.py:715-721 | an update by address applies the write to the document found for that address |
| Users.EnsureUserFound | forgotten_movies.py:622-654 | a successful ensure of a non-empty address returns the stored, complete record of the lower-cased address |
| Users.AddThenIsUnsubscribed | forgotten_movies.py:657-679 | after `add_unsubscribed_email(e)` succeeds, `is_unsubscribed(e)` holds and touches nothing |
| Users.RemoveUnsubscribedSpec | forgotten_movies.py:682-691 | `remove_unsubscribed_email` on an empty address returns False and changes nothing. Otherwise it returns whether `unsubscribed_at` was set. When it was set, the user's document has `unsubscribed_at` cleared to None with every other field kept, and no other document changes. When it was not set, nothing beyond the ensure changes. The registry stays valid, and afterwards the address is not unsubscribed |
| Users.MarkEmailUserSpec | forgotten_movies.py:707-721 | marking sets `last_email_at` to the send time and `next_email_at` to it plus `HOURS_BETWEEN_EMAILS` on the address's record, keeps the rest of that record, keeps the registry valid and its length, and leaves every document of another address as the registry touch left it |
| Users.MarkEmailUserValid | forgotten_movies.py:707-721 | marking keeps the registry valid, whatever it returns |
| Users.MarkAfterEnsure | forgotten_movies.py:707-721 | marking right after a successful ensure of the same address cannot raise |
| Users.UnsubscribedDocs | forgotten_movies.py:696 | every selected entry is a registry document whose `unsubscribed_at` is truthy, and every such document is selected |
| Users.ByEmailTotal | forgotten_movies.py:697 | ordering documents by address is a total order |
| Users.ListUnsubscribed | forgotten_movies.py:694-697 | the list is a permutation of the unsubscribed documents, sorted by address |
| Users.UnsubscribedCount | forgotten_movies.py:696 | the selection has exactly as many entries as there are documents with a truthy `unsubscribed_at` |
| Users.ListUnsubscribedSpec | forgotten_movies.py:694-697 | every listed entry is a registry document with a truthy `unsubscribed_at`, every such document is listed, and the list has exactly one entry per such document |
| Tables.Store.constructor | forgotten_movies.py:622-721 | a store starts out holding the given tables |
| Tables.Store.EnsureUser | forgotten_movies.py:622-654 | `_ensure_email_user_record` on the store does what `Users.EnsureUser` specifies and writes no other table |
| Tables.Store.IsUnsubscribed | forgotten_movies.py:657-664 | `is_unsubscribed` on the store does what `Users.IsUnsubscribed` specifies and writes no other table |
| Tables.Store.AddUnsubscribed | forgotten_movies.py:667-679 | `add_unsubscribed_email` on the store does what `Users.AddUnsubscribed` specifies and writes no other table |
| Tables.Store.RemoveUnsubscribed | forgotten_movies.py:682-691 | `remove_unsubscribed_email` on the store does what `Users.RemoveUnsubscribed` specifies and writes no other table |
| Tables.Store.MarkEmailUser | forgotten_movies.py:707-721 | `mark_email_user` on the store does what `Users.MarkEmailUser` specifies and writes no other table |
| PlexUrl.RunLength | forgotten_movies.py:890 | `[^/]+` and `[^&]+` take the longest run of characters other than the stop character |
| PlexUrl.MatchAtSound | forgotten_movies.py:890 | a match found at a position is a well-formed occurrence of `/server/<id>/details?key=<key>` there, and its key runs up to the next `&` or the end of the URL |
| PlexUrl.SearchSound | forgotten_movies.py:890 | what `re.search` finds is well formed |
| PlexUrl.RunLengthExact | forgotten_movies.py:890 | a run that ends at the stop character or at the end is taken whole |
| PlexUrl.OccurrenceParts | forgotten_movies.py:890 | an occurrence splits into the fixed parts, the server id and the key |
| PlexUrl.MatchAtOccurrence | forgotten_movies.py:890 | an occurrence at a position is matched there, with exactly its groups when it ends the run |
| PlexUrl.MatchAtParts | forgotten_movies.py:890 | a position followed by the fixed parts, a server id and a key is matched, with exactly those groups when the key ends the run |
| PlexUrl.MatchAtGroups | forgotten_movies.py:890-892 | the groups of a match are the text between the fixed parts |
| PlexUrl.SearchSkips | forgotten_movies.py:890 | the search passes positions where nothing matches |
| PlexUrl.SearchComplete | forgotten_movies.py:890 | when the pattern occurs anywhere, the search finds a match |
| PlexUrl.BeforeFirstMatch | forgotten_movies.py:890 | no position before the first match position holds a match |
| PlexUrl.SearchFinds | forgotten_movies.py:890 | the search returns the match at the first position that holds one |
| PlexUrl.SearchFirst | forgotten_movies.py:890 | what the search finds is a well-formed occurrence whose key ends at `&` or the end, with no well-formed occurrence at any earlier position |
| PlexUrl.TransformSpec | forgotten_movies.py:880-895 | an empty URL gives (None, None); otherwise the browser link is the URL itself. A mobile link exists exactly when the pattern occurs. It is `plex://server/<id>/details?key=<key>` for the leftmost occurrence, with the key taken up to the next `&` or the end |
| PlexUrl.NoMatchAt | forgotten_movies.py:890 | no match starts where the fixed part is absent |
| PlexUrl.MobileLinkStable | forgotten_movies.py:880-895 | transforming a mobile link again gives that same link for both outputs |
| Send.InitialTitle | forgotten_movies.py:755-756 | the title is the refresh's non-empty title for the id, else the record's non-empty title, else "Unknown", and it is never empty |
| Send.AttemptSend | forgotten_movies.py:733-875 | `_attempt_send_request` on the store does what `Send.Attempt` specifies: the new tables and the outcome or the exception |
| Send.WatchAndTitleStep | forgotten_movies.py:771-781 | the watch-history check and the Unknown-title back-fill on the store match their specification |
| Send.SentCheckStep | forgotten_movies.py:783-787 | the already-sent check on the store matches its specification |
| Send.CooldownStep | forgotten_movies.py:789-810 | the cooldown and legacy-cooldown checks on the store match their specification |
| Send.DeliverStep | forgotten_movies.py:812-875 | delivery and the post-send bookkeeping on the store match their specification |
| SendFacts.DeliverQuiet | forgotten_movies.py:831-875 | delivery with a failed render or send, or without `perform_db_updates`, writes nothing |
| SendFacts.CooldownsQuiet | forgotten_movies.py:789-875 | a cooldown refusal or a quiet delivery writes nothing |
| SendFacts.CooldownsValid | forgotten_movies.py:789-875 | the cooldown steps and delivery keep the registry valid |
| SendFacts.AfterTitleQuiet | forgotten_movies.py:783-875 | from the sent check on, a quiet attempt writes no sent row and no cooldown, and sets `email_sent` only for the already-sent refusal |
| SendFacts.NoBookkeepingThrough | forgotten_movies.py:778-781 | the title back-fill does not count as bookkeeping |
| SendFacts.AfterUnsubscribeQuiet | forgotten_movies.py:771-875 | from the watch check on, a quiet attempt does no send bookkeeping |
| SendFacts.BookkeepingNeedsDelivery | forgotten_movies.py:733-875 | unless delivery returns normally with `perform_db_updates` set, no sent row, cooldown or `email_sent` is written, except `email_sent` by the already-sent refusal; the registry stays valid |
| SendFacts.AttemptKeepsRegistry | forgotten_movies.py:733-875 | an attempt keeps the registry valid, whatever it returns |
| SendFacts.QuietAttempt | forgotten_movies.py:733-875 | an attempt that does not return from delivery with `perform_db_updates` set writes no sent row and no cooldown, and sets `email_sent` only for the already-sent refusal |
| SendFacts.ReachAfterTitle | forgotten_movies.py:758-783 | once the early checks pass, the attempt continues at the sent check with the back-filled title |
| SendFacts.EffectiveUserStable | forgotten_movies.py:789 | `user_record or get_email_user(email)` sees the same record after the earlier registry touches |
| SendFacts.ReachCooldowns | forgotten_movies.py:783-790 | with no sent row, the attempt continues at the cooldown check |
| SendFacts.ReachDeliver | forgotten_movies.py:789-812 | with no cooldown refusal, the attempt continues at delivery |
| SendFacts.DeliverShape | forgotten_movies.py:831-875 | a delivery that returns gives (sent, remove) with the recipient and send time |
| SendFacts.CooldownsShape | forgotten_movies.py:789-875 | from the cooldown on, an outcome is a cooldown refusal or a delivery; sent exactly on delivery with the recipient and send time, and with the title it was given |
| SendFacts.AfterTitleShape | forgotten_movies.py:783-875 | from the sent check on, an outcome is already-sent, a cooldown refusal or a delivery; sent exactly on delivery with the recipient and send time, and with the title it was given |
| SendFacts.AfterUnsubscribeShape | forgotten_movies.py:771-875 | from the watch check on: sent exactly on delivery, remove exactly for the terminal reasons, and recipient and time only on delivery |
| SendFacts.OutcomeShape | forgotten_movies.py:724-875 | `sent` holds exactly when the reason is delivery; `remove_candidate` holds exactly for missing e-mail, watched, already sent and delivered; recipient and `sent_at` are set exactly on a send |
| SendFacts.MissingEmailFirst | forgotten_movies.py:758-760 | the missing-address refusal happens exactly when the stripped address is empty; it is (False, True) and writes nothing |
| SendFacts.CycleDeferralSecond | forgotten_movies.py:762-765 | the cycle deferral happens exactly when the address is set, the cycle is respected and the record is not yet eligible; it is (False, False) and writes only `eligible_for_email = True` |
| SendFacts.UnsubscribedThird | forgotten_movies.py:767-769 | the unsubscribed refusal happens exactly when the earlier checks pass and the address is unsubscribed; it is (False, False) and writes only the registry touch |
| SendFacts.WatchedFourth | forgotten_movies.py:771-776 | the watched refusal happens exactly when the earlier checks pass and the watch history is non-empty; it is (False, True) and writes only the request's watch date |
| SendFacts.AfterUnsubscribeWatched | forgotten_movies.py:771-776 | from the watch check on, a watch hit stamps the watch date and refuses with removal |
| SendFacts.AlreadySentFifth | forgotten_movies.py:783-787 | the already-sent refusal happens exactly when the earlier checks pass and a sent row exists for (address, tmdbId); it is (False, True) and sets `email_sent` on that request only |
| SendFacts.AfterTitleAlreadySent | forgotten_movies.py:783-787 | from the sent check on, an existing row sets `email_sent` and refuses with removal |
| SendFacts.TitledDbRequests | forgotten_movies.py:778-781 | the title back-fill keeps the sent table, the ids and every `email_sent` |
| SendFacts.EarlyReasons | forgotten_movies.py:758-781 | an attempt that stops before the sent check has one of the first four reasons |
| SendFacts.WatchOrTitleStops | forgotten_movies.py:771-781 | with a watch hit, or an Unknown title whose metadata lookup raises, the attempt can only stop as watched |
| SendFacts.EarlyOutcomes | forgotten_movies.py:758-771 | the first three checks in order: missing address, cycle deferral with the eligibility mark, the unsubscribe check raising or refusing, and otherwise the watch check |
| SendFacts.BeforeCooldownReasons | forgotten_movies.py:758-787 | an attempt that stops before the cooldown has one of the first five reasons |
| SendFacts.CooldownSixth | forgotten_movies.py:789-798 | the cooldown refusal happens exactly when the earlier checks pass, the cooldown is respected and `next_email_at` parses to a time after the run's `now_dt`; it is (False, False) and writes nothing beyond the earlier steps |
| SendFacts.LegacyCooldownSeventh | forgotten_movies.py:800-810 | the legacy refusal happens exactly when the user has no `last_email_at` and the first sent row to the address is younger than `HOURS_BETWEEN_EMAILS`; an unparseable stamp on that row raises |
| SendFacts.CooldownsLegacy | forgotten_movies.py:789-810 | from the cooldown check on, the legacy refusal happens exactly when no cooldown blocks and the first sent row is too recent, and an unparseable stamp there raises |
| SendFacts.SentIffChecksPass | forgotten_movies.py:733-875 | an attempt sends exactly when every check passes and rendering and delivery return, and then the outcome is (True, True) with the final title, the recipient and the send time |
| SendFacts.PersistedState | forgotten_movies.py:852-869 | a persisted send leaves exactly: the request marked sent with its title, the upserted sent row (rating key as `str(rating_key)`, so `"None"` for a request without one), and the cooldown stamped on the ensured user |
| SendFacts.PersistedSendMarksRequests | forgotten_movies.py:853 | a persisted send sets `email_sent` and `title` on the attempted request and changes no other request |
| SendFacts.MarkSentAfterTitles | forgotten_movies.py:853 | the title back-fill followed by the send mark leaves the request sent with the final title |
| SendFacts.PersistedSendStampsCooldown | forgotten_movies.py:854 | a persisted send sets `last_email_at = sent_at` and `next_email_at = sent_at + HOURS_BETWEEN_EMAILS` on the recipient's record |
| SendFacts.PersistedSendOneRow | forgotten_movies.py:855-869 | after a persisted send exactly one sent row exists for (address, tmdbId); it holds the send time, no watch date, and the text of the rating key, `"None"` when the request has none |
| SendFacts.TitledDbRequestAt | forgotten_movies.py:778-781 | the title back-fill changes only the title of the attempted request, and only when its title was Unknown |
| SendFacts.DryRunPersistsNothing | forgotten_movies.py:852-873 | without `perform_db_updates` a send still reports (True, True) but writes no sent row, cooldown or `email_sent` |
| SendFacts.SendNowNeverDefers | forgotten_movies.py:762-800 | with the cycle and cooldown off, as the manual send-now path calls it, no deferral or cooldown reason occurs |
| Maintenance.Unwatched | forgotten_movies.py:395 | the pending rows are exactly the sent rows without a truthy `date_watched` |
| Maintenance.Verdicts | forgotten_movies.py:397-449 | there is one verdict per pending row |
| Maintenance.Tally | forgotten_movies.py:393-457 | `checked` counts every pending row and `watched + failed` never exceeds it; when every row lacks data, none counts as watched or failed |
| Maintenance.TallyCounts | forgotten_movies.py:393-457 | `watched` is exactly the number of rows found watched and `failed` exactly the number whose lookup failed |
| Maintenance.StampedOnlyDates | forgotten_movies.py:429-432 | the watch check changes only `date_watched` |
| Maintenance.StampedUntouched | forgotten_movies.py:429-432 | a row no watch hit refers to is left as it was |
| Maintenance.StampedLast | forgotten_movies.py:429-432 | a row gets the watch date of the last hit that refers to it |
| Maintenance.VisitRow | forgotten_movies.py:397-449 | one pending row on the store yields its verdict and stamps `date_watched` exactly on a watch hit |
| Maintenance.VisitAll | forgotten_movies.py:397-449 | the loop over the pending rows returns the tally of their verdicts and stamps the rows as specified, touching no other table |
| Maintenance.CheckUnwatched | forgotten_movies.py:382-457 | the loop returns the tally of the verdicts, stamps the rows as specified, sets `last_watch_status_check`, and leaves requests and users alone |
| Maintenance.Candidates | forgotten_movies.py:466-476 | the candidates are exactly the requests with no usable title, a rating key and a media date at or before the threshold |
| Maintenance.NewestFirstTotal | forgotten_movies.py:477 | ordering by media date, newest first, is total |
| Maintenance.PoolSpec | forgotten_movies.py:477-479 | the pool holds the first `pool_size` candidates, newest first, and no left-out candidate is newer than a pooled one |
| Maintenance.Visit | forgotten_movies.py:482-514 | a visit that yields a title writes that title for that request id, which is non-zero |
| Maintenance.AgreesStep | forgotten_movies.py:500-514 | one title write keeps the requests and the returned titles in agreement |
| Maintenance.RefreshLoopAgrees | forgotten_movies.py:479-514 | the loop keeps every returned title equal to the title written on that request |
| Maintenance.RefreshLoopBounds | forgotten_movies.py:479-514 | the loop returns at most `limit` titles, and at most one more per pooled request still to visit |
| Maintenance.RefreshLoopIds | forgotten_movies.py:479-514 | every title the loop returns is for an id it already had or for the non-zero id of a pooled request still to visit |
| Maintenance.RefreshSpec | forgotten_movies.py:460-517 | with a non-positive `limit` or `pool_size`, nothing happens. Otherwise at most `limit` and `pool_size` titles are returned, each for a non-zero id of a refreshable request, and the stored titles agree with them |
| Maintenance.RefreshMetadata | forgotten_movies.py:460-517 | the refresh on the store writes the requests and returns the titles as `Maintenance.Refresh` specifies, touching no other table |
| Ingest.NewRecordWaits | forgotten_movies.py:1027-1070 | a new request starts Unknown-titled, not yet eligible, unsent, not skipped and unwatched, with a media date, a type of "movie" or "tv show" and the stripped address |
| Ingest.IngestOneRequests | forgotten_movies.py:1019-1070 | one upstream request either leaves the requests or appends its new record, and afterwards its id is stored |
| Ingest.IngestOneUsers | forgotten_movies.py:1025 | one upstream request registers its address and only adds or back-fills documents |
| Ingest.IngestStep | forgotten_movies.py:1019-1070 | one upstream request on the store does what `Ingest.IngestOne` specifies |
| Ingest.IngestAllNext | forgotten_movies.py:1019-1070 | the ingestion loop stops at a step that raises and otherwise goes on from that step's tables |
| Ingest.IngestTouches | forgotten_movies.py:1019-1070 | ingestion writes neither the sent table nor the watch stamp, and keeps the registry valid |
| Ingest.IngestedFromMore | forgotten_movies.py:1019 | a record built from some upstream requests is built from the whole list |
| Ingest.IngestOneAppends | forgotten_movies.py:1027-1070 | one ingestion step only appends, and what it appends is built from that request |
| Ingest.IngestAppends | forgotten_movies.py:1019-1070 | ingestion keeps every stored request and appends only records built from upstream requests |
| Ingest.IngestKeepsIdsDistinct | forgotten_movies.py:1027 | request ids stay distinct |
| Ingest.IngestCoversIds | forgotten_movies.py:1019-1070 | after ingestion every upstream id is stored |
| Ingest.IngestCoversAddresses | forgotten_movies.py:1025 | after ingestion every non-empty upstream address has a registry document |
| Ingest.IngestRequests | forgotten_movies.py:1019-1070 | the ingestion loop on the store does what `Ingest.IngestAll` specifies |
| Ingest.RegisterAt | forgotten_movies.py:1073-1076 | one pass of the legacy loop on the store either raises as `Ingest.EnsureAll` does or leaves what is left of that loop unchanged |
| Ingest.EnsureAllTouches | forgotten_movies.py:1073-1076 | the legacy loop only adds or back-fills documents and keeps the registry valid |
| Ingest.EnsureAllCovers | forgotten_movies.py:1073-1076 | after the legacy loop every stored request with an address has a registry document |
| Ingest.EnsureLegacyUsers | forgotten_movies.py:1073-1076 | the legacy loop on the store does what `Ingest.EnsureAll` specifies and writes no other table |
| Grouping.OverdueForMembers | forgotten_movies.py:1085-1102 | one key's group holds exactly the overdue requests with that key |
| Grouping.GroupedSpec | forgotten_movies.py:1083-1102 | a key is grouped exactly when it has an overdue request, and its group is the overdue requests with that key in store order |
| Grouping.GroupedNext | forgotten_movies.py:1084-1102 | one more request extends the grouping by `setdefault(key, []).append(...)` exactly when it is overdue |
| Grouping.GroupOverdue | forgotten_movies.py:1084-1102 | the `setdefault(...).append` loop builds the grouping specified by `Grouping.Grouped` |
| Grouping.UiLoopTouches | forgotten_movies.py:294-323 | the listing loop keeps the registry valid and only adds or back-fills documents |
| Grouping.UiLoopListed | forgotten_movies.py:294-323 | the listing loop lists only stored requests that pass the filter |
| Grouping.UiLoopNext | forgotten_movies.py:294-313 | one open request in the listing loop raises when `is_unsubscribed` raises, and is otherwise listed exactly when not unsubscribed and past the threshold |
| Grouping.UiListingSpec | forgotten_movies.py:291-327 | the UI list is sorted newest first and holds only stored requests that pass the filter; every listed item with an address is overdue in the sense of `main`'s filter |
| Grouping.OverdueForUi | forgotten_movies.py:291-327 | the listing on the store does what `Grouping.UiListing` specifies and writes no other table |
| Serve.AttemptFirst | forgotten_movies.py:1127-1137 | the attempt on the front candidate on the store matches its specification |
| Serve.TurnStep | forgotten_movies.py:1122-1157 | one pass of the `while candidates` body either goes on with fewer candidates or ends the turn, as specified |
| Serve.ServeUser | forgotten_movies.py:1122-1157 | the `while candidates` loop on the store does what `Serve.ServeTurn` specifies |
| Serve.ServeDocumentOn | forgotten_movies.py:1107-1121 | one snapshot document on the store is handled as `Serve.ServeDocument` specifies |
| Serve.ServeUsers | forgotten_movies.py:1104-1157 | the loop over the snapshot on the store does what `Serve.ServeFrom` specifies |
| ServeFacts.SentCount | forgotten_movies.py:1139-1157 | a log counts no more sends than entries |
| ServeFacts.TurnOrder | forgotten_movies.py:1122-1157 | a turn tries candidates from the front in order. Every attempt but the last was refused with removal. What is left is a suffix of the candidates. The attempt counter grows by one per attempt. The cap ends a turn only in debug mode |
| ServeFacts.AfterOrder | forgotten_movies.py:1139-1157 | the same order facts from the front candidate's outcome on |
| ServeFacts.TurnCounts | forgotten_movies.py:1122-1157 | a turn sends at most once; in debug mode the counter grows by the sends and stays within `DEBUG_MAX_EMAILS` |
| ServeFacts.AfterCounts | forgotten_movies.py:1139-1157 | the same counting facts from the front candidate's outcome on |
| ServeFacts.AttemptSentEligible | forgotten_movies.py:758-765 | with the cycle respected, a send happens only for an eligible request with an address |
| ServeFacts.TurnSentEligible | forgotten_movies.py:1122-1157 | every send of a turn was for an eligible request with an address |
| ServeFacts.AfterSentEligible | forgotten_movies.py:1139-1157 | the same eligibility fact from the front candidate's outcome on |
| ServeFacts.DryRunTransitive | forgotten_movies.py:1134 | two persistence-free stretches in a row form one |
| ServeFacts.TurnRegistry | forgotten_movies.py:1122-1157 | a turn keeps the registry valid; in debug mode it writes no sent row, keeps the number of requests, and only adds or back-fills user documents |
| ServeFacts.AfterRegistry | forgotten_movies.py:1139-1157 | the same registry facts from the front candidate's outcome on |
| ServeFacts.TryEligible | forgotten_movies.py:1127-1137 | every attempt closure of a turn sends only for an eligible request with an address |
| ServeFacts.TryRegistry | forgotten_movies.py:1127-1137 | every attempt closure of a turn keeps the registry valid and, in debug mode, persists nothing |
| ServeFacts.GroupedOverdue | forgotten_movies.py:1083-1102 | every grouped request is overdue and sits under its own key |
| ServeFacts.DocumentTurn | forgotten_movies.py:1107-1157 | a document that takes a turn runs the `while candidates` loop on its key's group and stores what is left of it |
| ServeFacts.DocumentNoTurn | forgotten_movies.py:1107-1121 | a document skipped for a missing address, an unsubscribe or an empty group, or whose ensure raises or returns nothing, leaves groups, log and counter alone |
| ServeFacts.OrderedTried | forgotten_movies.py:1122-1157 | whatever holds of every grouped request holds of every request a turn tries and of the groups it leaves |
| ServeFacts.DocumentTried | forgotten_movies.py:1107-1157 | whatever holds of every grouped request holds of every request one document tries and of the groups it leaves |
| ServeFacts.DocumentEligible | forgotten_movies.py:1107-1157 | one document sends only for eligible requests with an address |
| ServeFacts.DocumentRegistry | forgotten_movies.py:1107-1157 | one document keeps the registry valid and, in debug mode, persists nothing |
| ServeFacts.DocumentCounts | forgotten_movies.py:1107-1157 | one document's sends match the debug counter and stay within the cap, and the cap ends the run only in debug mode |
| ServeFacts.DocumentExtends | forgotten_movies.py:1107-1157 | one document only extends the run's log |
| ServeFacts.ServeFromTried | forgotten_movies.py:1107-1157 | whatever holds of every grouped request holds of every request the snapshot loop tries |
| ServeFacts.ServeFromEligible | forgotten_movies.py:1107-1157 | every send of the snapshot loop was for an eligible request with an address |
| ServeFacts.ServeFromRegistry | forgotten_movies.py:1107-1157 | the snapshot loop keeps the registry valid and, in debug mode, persists nothing |
| ServeFacts.ServeFromCounts | forgotten_movies.py:1107-1157 | the snapshot loop's sends match the debug counter and stay within the cap, and the cap ends the run only in debug mode |
| ServeFacts.NoSecondSend | forgotten_movies.py:1146-1157 | a turn's log that counts at most one send holds no two sends |
| ServeFacts.OneSendJoin | forgotten_movies.py:1107-1157 | appending one recipient's attempts, with at most one send, to a log that sent nothing to that recipient keeps one send per recipient key |
| ServeFacts.OrderedKeyed | forgotten_movies.py:1119-1157 | a turn over a recipient's group tries only requests of that recipient's key and leaves every group holding only its own key's requests |
| ServeFacts.DocumentKeyed | forgotten_movies.py:1107-1157 | one snapshot document's visit tries only requests of its own key, sends at most once, and keeps every group holding only its own key's requests |
| ServeFacts.VisitKeyed | forgotten_movies.py:1107-1157 | every visit of the loop body is keyed in that sense |
| ServeFacts.OnePerKeyStep | forgotten_movies.py:1107-1157 | after one keyed visit, the log still has one send per key and nothing sent to a key of a document still ahead |
| ServeFacts.ServeFromOnePerKey | forgotten_movies.py:1107-1157 | over a snapshot without repeated keys, the loop from a document on sends at most once per recipient key |
| ServeFacts.ServeOnePerKey | forgotten_movies.py:1083-1157 | serving the grouping over a snapshot without repeated keys sends at most once per recipient key |
| ServeFacts.NormalizedDistinct | forgotten_movies.py:622-627 | a valid registry whose addresses are stored stripped and lower-cased has no two documents with the same recipient key |
| ServeFacts.VisitTried | forgotten_movies.py:1104-1157 | every document visit keeps the groups and the tried requests within what every grouped request satisfies |
| ServeFacts.VisitEligible | forgotten_movies.py:1104-1157 | every document visit sends only for eligible requests with an address |
| ServeFacts.VisitRegistry | forgotten_movies.py:1104-1157 | every document visit keeps the registry valid and, in debug mode, persists nothing |
| ServeFacts.VisitCounts | forgotten_movies.py:1139-1157 | every document visit's sends match the debug counter and stay within the cap |
| ServeFacts.ServeSpec | forgotten_movies.py:1083-1157 | serving the grouping keeps the registry valid and tries only overdue requests. It sends only for eligible requests with an address. In debug mode it persists no send, sends exactly as many mails as the counter says, and at most `DEBUG_MAX_EMAILS`. Outside debug mode the cap never stops it. When no two snapshot documents share a recipient key, each recipient key receives at most one reminder |
| Run.PrepareOn | forgotten_movies.py:986-1080 | the steps before serving, on the store, do what `Run.Prepare` specifies |
| Run.RunReminders | forgotten_movies.py:985-1157 | `main` on the store does what `Run.RunOnce` specifies: the final tables and how the run ended |
| Run.FetchedSpec | forgotten_movies.py:1014-1080 | ingestion, legacy registration and refresh keep the registry valid, only add or back-fill documents, and write neither the sent table nor the watch stamp |
| Run.PrepareSpec | forgotten_movies.py:986-1080 | an unreachable service leaves every table as it was. The watch check runs and stamps `last_watch_status_check` exactly when it is due. The later steps keep the sent table and the stamp, and only add or back-fill user documents |
| Run.RunSpec | forgotten_movies.py:985-1157 | a run keeps the registry valid. When it reaches the end: it tried only overdue requests, sent only for eligible ones with an address, and in debug mode wrote no sent row while serving and sent at most `DEBUG_MAX_EMAILS` mails. When no two documents of the registry it serves share a recipient key, each recipient key received at most one reminder |

## Left out

- SMTP delivery (`send_email`) and the template loading and rendering. They are oracle answers: delivery returns a recipient or raises, and rendering returns or raises.
- The HTTP collaborators: the request list, watch history, metadata and poster lookups, and the two connection checks. They are inputs, and the connection checks are the single `reachable` flag.
- `datetime.now()`. Each reading is a field of `Run.Clock` or an oracle's `clock`. Ingestion uses one reading for all new records, where the code reads the clock per record.
- ISO-8601 parsing and formatting. A stored stamp is either an already-parsed instant or text that does not parse, and a watch-history timestamp reaches the model already resolved to an instant.
- Python's randomised `hash` in `_stable_doc_id`: it is the parameter `hashOf`.
- Logging, `EMAIL_USER_LOCK` and `time.sleep(3)`: the model is sequential.
- `get_recent_sent_emails` and the display strings of the UI listing (`created_at_display`, `media_added_sort`). They are presentation.
- The scheduler setting functions, webapp.py, scheduler_runner.py, job_runner.py and entrypoint.py. These are not part of this model.
- The `(media_dt, rec)` pairs of the grouping: a group holds the records only, since `main` never reads the date again.
- Grouping.UiListingSpec: states only that every listed item is stored, passes the filter and is sorted. It does not state that every request passing the filter is listed.
- Text.Lower: lower-cases ASCII letters only. Python's `str.lower` also folds other alphabets.
- Serve.ServeFrom: the whole-run bound of one reminder per recipient key (ServeFacts.ServeOnePerKey, Run.RunSpec) is stated on the condition that no two snapshot documents share a key. Two documents whose addresses differ only in case or surrounding spaces share one group and can each take a turn, and the code keeps that behaviour. Documents the code writes are stored lower-cased (ServeFacts.NormalizedDistinct), but the model does not prove that the preparation steps keep every stored address in that form.
- The `try`/`except` around the watch check in `main`: the modelled check cannot raise as a whole, since each row's failure is counted inside it.
