# Forum thread bot — a Dafny model

The system is a Discord bot. When a person posts in one of the monitored text
channels, the bot picks the forum channels that match the author's roles (the
male forums and the female forums, or the default forums when the matched
roles select no forum identifier at all), and in each of those forums it either finds a thread the author
already owns — a thread whose name starts with `<display name>/` — or creates
one named `<display name>/<month>/<day>`, the date being ten days after the
message in Asia/Tokyo time, cut to 95 characters. Every created thread is
recorded under the message's identifier in a persistent store. When the
message is deleted, the store entry is popped and each recorded thread is
deleted, one by one, whatever happens to the others.

The model covers, module by module:

| module | file | what it models |
|---|---|---|
| `IdList` | `ids.dfy` | the comma-separated identifier lists read from the configuration (split, strip, digit test, decimal value) |
| `Calendar` | `calendar.dfy` | the proleptic Gregorian calendar: day numbers to civil dates and back |
| `ThreadNaming` | `naming.dfy` | the thread name (display name, due date, 95-character cut) and the ownership test on names |
| `Platform` | `platform.dfy` | what the bot sees of the platform: threads, forums, channels, and the outcome of each platform call as data |
| `Resolver` | `resolver.dfy` | the search for a thread the author owns: active threads, then up to 200 archived threads, a failing listing ending the search |
| `Router` | `router.dfy` | the choice of target forums: role lists, the default fallback, de-duplication in first-seen order, forum channels only |
| `LinkStore` | `links.dfy` | the message-to-threads store as a class (`Store`) whose methods update its map and count the flushes to the file |
| `Orchestrator` | `orchestrator.dfy` | the two event handlers, `on_message` and `on_raw_message_delete`, as methods over the store, each proved against a function |
| `Maybe`, `Collections` | `option.dfy`, `collections.dfy` | `Option` and the no-duplicates predicate |

Time is a whole number of seconds since 1970-01-01T00:00Z; Asia/Tokyo is the
fixed offset UTC+9 (Japan has kept it since 1951). Identifiers are integers.
The outcome of every platform call (listing archived threads, creating a
thread, fetching and deleting a channel) is part of the input, so each handler
is a deterministic function of its inputs and the store.

Where the code and the system's written design differ, the model follows the
code:

- Ownership is a prefix test: a thread belongs to display name `D` when its
  name starts with `D/`. The written design speaks of "the first segment
  equals `D`". The two agree when `D` has no slash
  (`ThreadNaming.BelongsIffFirstSegment`); with slashes in display names one
  thread can belong to two people (`ThreadNaming.SlashedNamesCollide`).
- A store entry is a list in insertion order without repeats, not a set. The
  code does not stop one thread from being recorded under two messages; the
  model shows both that this can happen (`LinkStore.CrossLinkPossible`) and
  that it does not when created thread identifiers are fresh
  (`LinkStore.WithFreshLinkKeepsNoCrossLinks`).
- When listing archived threads fails partway, a match among the threads
  already listed is still returned; the search reports "none" only when no
  listed thread matched (`Resolver.ExistingUserThreadArchived`,
  `Resolver.ListingFailureMeansActiveOnly`).

## Model

| member | source | states |
|---|---|---|
| IdList.Split | main.py:26 | `str.split(",")` yields at least one piece and no piece holds a comma |
| IdList.JoinSplit | main.py:26 | joining the pieces of a split with commas gives back the text |
| IdList.SplitJoin | main.py:26 | splitting comma-joined comma-free pieces gives back the pieces |
| IdList.SplitAtComma | main.py:26 | splitting at a comma splits each side separately |
| IdList.Strip | main.py:26 | `strip()` keeps the infix between the leading and trailing whitespace runs; the result neither starts nor ends with whitespace |
| IdList.StripPadded | main.py:26 | stripping whitespace padding off a word with no whitespace at its ends gives the word |
| IdList.Show | main.py:105 | the decimal rendering of a number is a digit string without leading zeros |
| IdList.Value | main.py:26 | `int()` of a digit string is zero exactly when every digit is `0` |
| IdList.ValueLeadingZero | main.py:26 | a leading zero does not change the value of a digit string |
| IdList.ValueShow | main.py:26 | `int()` of the decimal rendering of `n` is `n` |
| IdList.ParseIdList | main.py:25-26 | an identifier is listed iff some comma-separated piece, stripped, is a numeral with that value; there are never more identifiers than pieces |
| IdList.ParseAtComma | main.py:25-26 | the identifier list of `a,b` is the list of `a` followed by the list of `b` |
| IdList.ParsePiece | main.py:26 | a piece yields its value when its stripped text is all digits, and is dropped otherwise |
| IdList.ParsePadded | main.py:25-26 | a number padded with whitespace parses to that number |
| IdList.ParseFormat | main.py:25-26 | parsing the comma-joined, whitespace-padded renderings of a list of identifiers gives back the list |
| IdList.ParseEmpty | main.py:25-26 | an unset or empty setting yields no identifier |
| Calendar.PositionOf | main.py:104 | every day number has a position (era, century, four-year cycle, year, day of year) in the 400-year cycle that adds up to it |
| Calendar.CivilFromDaysValid | main.py:104 | every day number maps to a valid Gregorian date |
| Calendar.DaysFromCivilInverse | main.py:104 | converting a day number to a date and back gives the day number |
| Calendar.CivilFromDaysInverse | main.py:104 | converting a valid date to a day number and back gives the date |
| Calendar.PositionUnique | main.py:104 | a day number has only one position in the 400-year cycle |
| ThreadNaming.DueDate | main.py:104-105 | the due date is a valid date exactly ten days after the message's day in Tokyo |
| ThreadNaming.MakeThreadName | main.py:102-106 | the name is at most 95 characters, a prefix of `D/<month>/<day>`, all of it when that fits, otherwise exactly 95 characters |
| ThreadNaming.GeneratedNameBelongs | main.py:106-110 | a generated name belongs to its display name when the display name and slash fit in 95 characters |
| ThreadNaming.NameBelongsToUser | main.py:108-110 | a name belongs to a display name iff it is that display name, a slash, and any rest |
| ThreadNaming.BelongsIffFirstSegment | main.py:108-110 | for a display name without a slash, the prefix test holds iff the name's first slash-separated segment is the display name |
| ThreadNaming.OwnersNest | main.py:108-110 | two owners of one name are prefix-nested; two slash-free owners are the same |
| ThreadNaming.SlashedNamesCollide | main.py:108-110 | a name can belong to two different display names when one contains a slash |
| ThreadNaming.DueDateExample | main.py:104-105 | a message at 2023-12-31T15:00Z (midnight in Tokyo on New Year's Day) is due on 2024-01-11 |
| ThreadNaming.AliceExample | main.py:102-106 | "Alice" posting at that instant gets the thread "Alice/1/11" |
| Resolver.FirstOwnedIndex | main.py:115-117 | the index of the first thread the display name owns: no owned thread before it, and the one at it is owned |
| Resolver.ArchivedListedCount | main.py:119-124 | the archived threads examined are all of them, or the first 200, or those listed before the listing fails, whichever is fewest |
| Resolver.FindExistingUserThread | main.py:112-125 | the two loops return the first owned active thread, else the first owned thread among the archived threads listed before the limit or a failure, else none |
| Resolver.ExistingUserThreadNone | main.py:112-125 | no thread is found iff no active thread and no listed archived thread is owned |
| Resolver.ExistingUserThreadFound | main.py:115-117 | a found thread is owned, and an owned active thread takes precedence over the archive |
| Resolver.ExistingUserThreadArchived | main.py:119-122 | with no owned active thread, the first owned listed archived thread is the one found |
| Resolver.ListingFailureMeansActiveOnly | main.py:119-124 | when the archived listing fails at once, only the active threads are searched |
| Resolver.ArchiveBeyondLimitIgnored | main.py:120 | archived threads past the first 200 never change the answer |
| Resolver.NoForeignMatch | main.py:112-125 | for slash-free names, a thread found for one display name is owned by no other |
| Router.GatherTargetForums | main.py:127-150 | the loop yields the candidate identifiers that are forum channels, each once, in first-seen order, and exactly those |
| Router.KeepForums | main.py:141-150 | the de-duplicating loop returns exactly the routed forums of the candidates |
| Router.RouteMembers | main.py:141-150 | an identifier is routed iff it is a candidate not seen before and a forum channel |
| Router.RouteNoDuplicates | main.py:141-146 | no forum is routed twice |
| Router.RouteKeepsFirstSeenOrder | main.py:143-149 | routed forums keep the order of their first appearance among the candidates |
| Router.RoleForums | main.py:129-136 | an identifier is selected iff it is a male forum and the member has the male role, or a female forum and the member has the female role |
| Router.Candidates | main.py:132-138 | the candidates are the role-selected identifiers, or the default forums when the roles select none; there is no candidate iff neither gives one |
| Router.TargetForumsFromRoles | main.py:129-138 | a forum is a target iff it is a forum channel listed for one of the author's roles, or a default forum when no role list applies |
| LinkStore.Store.Load | main.py:64-74 | loading gives the stored map, or the empty map when reading fails or there is no file |
| LinkStore.Store.AddLink | main.py:84-90 | the thread is appended to the message's entry (created if missing) unless already there; the file is written only then |
| LinkStore.Store.PopLinks | main.py:92-99 | returns the message's entry (empty if none) and removes it; the file is written only when something was removed |
| LinkStore.WithLinkRecords | main.py:84-90 | after adding, the thread is in the entry exactly once, and the entry keeps no duplicates |
| LinkStore.WithLink | main.py:84-90 | after `add_link(m, t)` the thread is under `m`: the map is unchanged if it already was, otherwise `t` is appended to `m`'s entry (created if missing); no other entry changes |
| LinkStore.WithoutEntry | main.py:96 | after `pop_links(m)` the message has no entry and every other entry is as it was |
| LinkStore.WithLinkIdempotent | main.py:88 | adding the same link twice is adding it once |
| LinkStore.AddThenPop | main.py:84-99 | for a fresh message, add then pop returns `[t]` and restores the store; a second pop returns nothing |
| LinkStore.TwoLinksThenPop | main.py:84-99 | two distinct threads added for a fresh message are popped in insertion order |
| LinkStore.WithFreshLinkKeepsNoCrossLinks | main.py:84-90 | a thread not yet recorded anywhere keeps every thread under at most one message |
| LinkStore.CrossLinkPossible | main.py:84-90 | the store itself does not prevent one thread from being recorded under two messages |
| LinkStore.WithoutEntryKeepsNoCrossLinks | main.py:96 | popping an entry keeps every thread under at most one message |
| Orchestrator.TargetForums | main.py:171 | every target of a message is a forum channel of the guild |
| Orchestrator.HandleMessage | main.py:162-207 | a message is ignored iff it does not trigger; a triggering message with no target forum is a routing failure; otherwise there is one result per target forum, in order, each that forum's own step |
| Orchestrator.OnMessage | main.py:162-207 | the handler's outcome is the message's specified handling; the store gains exactly the links of the threads it created, in order; the file is written once per newly linked thread, so it holds the final map whenever the map changed and is left alone otherwise |
| Orchestrator.CreateThreads | main.py:184-207 | the loop over the target forums yields one result per forum, in order, and records exactly the created threads under the message; the file is written once per newly linked thread and holds the final map whenever the map changed |
| Orchestrator.HandleForum | main.py:185-207 | one forum: skipped if the member already owns a thread there, otherwise a thread is asked for and, if made, linked to the message; the file is written once exactly when that changes the map, and left alone otherwise |
| Orchestrator.ForumStepsPerForum | main.py:184-207 | one result per target forum, each depending on that forum alone, so a failure in one forum does not affect the others |
| Orchestrator.ForumStep | main.py:187-205 | a forum is skipped iff the author already owns a thread there; a thread with the computed name is created iff none is owned and creation succeeds |
| Orchestrator.LinksAfterRecordsCreated | main.py:192-199 | handling only extends the message's entry, with exactly the created threads; other entries are untouched |
| Orchestrator.LinksAfterFreshMessage | main.py:184-199 | for a new message, its entry is the created threads in creation order |
| Orchestrator.NoRouteNoThreads | main.py:171-174 | with no matching role and no default forum nothing is created or recorded |
| Router.RouteSameForums | main.py:147-148 | routing depends only on which identifiers are forum channels |
| Orchestrator.CreatedInHas | main.py:192-198 | every created thread is listed under its forum |
| Resolver.ExistingUserThreadMonotone | main.py:112-125 | adding active threads never loses an owned thread, and adding an owned one makes the search succeed |
| Orchestrator.SecondRunSkips | main.py:184-190 | handling the same message again, once the created threads are visible, skips every forum where a thread was created or found |
| Orchestrator.OnRawMessageDelete | main.py:209-233 | the entry is removed and each linked thread gets its own delete attempt, in order, with its result; the file is written once if the message had linked threads and left alone otherwise |
| Orchestrator.CascadePerThread | main.py:220-233 | one result per popped thread, in order, each from that thread's own platform answers |
| Orchestrator.DeleteStep | main.py:222-233 | a thread is deleted iff it is fetched and its deletion succeeds; not-found at fetch or delete counts as already gone; a non-thread channel is left alone; any other failure is reported for that thread |
| Orchestrator.DeleteUnknownMessage | main.py:215-218 | deleting a message with no entry makes no platform call and leaves the store as it was |
| Orchestrator.MaleAuthorTwoForums | main.py:127-233 | an author with only the male role and two fresh male forums gets two linked threads, and deleting the message deletes both and clears the entry |

## Left out

- The Discord client itself (intents, `on_ready`, `bot.run`, the token check) is not modelled; the platform's answers are inputs.
- The asyncio lock around the store and any interleaving of the two handlers are not modelled; each handler runs to completion on its own.
- Reading and writing the JSON file are not modelled; a write is a snapshot of the map (`saved`) and a counter (`flushes`). A write that fails, and `_ensure_dir` raising before the write, are not modelled.
- LinkStore.Store.Load: a file whose JSON is not an object of lists of integers is not modelled; keys are integers rather than the decimal strings of message identifiers. The ghost `saved` starts as the loaded map, which is the empty map when the file was missing or unreadable, although such a file is only replaced at the first write.
- Environment variables and logging are not modelled; the role identifiers are plain integers and their `int()` parsing at start-up is left out.
- IdList: only ASCII digits count as digits. Python's `isdigit` and `int` also accept other Unicode decimal digits, and `isdigit` accepts superscript digits that make `int` raise at start-up. Python 3.11 and later (and 3.10.7 and later) also make `int` raise on a digit string longer than 4300 characters (the `int_max_str_digits` limit); `Value` has no length limit.
- ThreadNaming.MakeThreadName: the time zone is the fixed offset UTC+9, and dates outside years 1–9999 (where Python raises `OverflowError`) are not excluded. The fall-back to the current time and the naive-time repair (main.py:177-179) are not modelled: the message always carries its instant. Fractions of a second are dropped, which cannot change the date.
- ThreadNaming.GeneratedNameBelongs and Orchestrator.SecondRunSkips require the display name and slash to fit in 95 characters. For longer display names the generated name is cut before the slash and a repeated message creates another thread.
- Orchestrator.OnMessage: every call to create a thread in one forum gives the same answer (`onCreate`). The message link posted as the thread's content and the audit reason are not modelled, nor is the unwrapping of `ThreadWithMessage` (main.py:198): a created thread is its identifier and name.
- Orchestrator.OnRawMessageDelete: the platform's answer for a thread is a function of its identifier, so a thread recorded twice gets the same answer twice.
- The log messages, and the distinction between `Forbidden`, `HTTPException` and other errors beyond carrying the error kind in the result, are not modelled.
