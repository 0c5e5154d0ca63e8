# Mini event scheduler: verified model of the store, the categoriser and the client state

The scheduler keeps calendar events (title, date, time, optional notes) in a
server-side in-memory array. It labels each new event Work, Personal or Other
by searching its text for keywords. A React client keeps a sorted copy of the
list and filters it by category. This project models that core in Dafny:

- `text.dfy` (module `Text`) holds the string primitives the source relies on: ASCII `toLowerCase`, ASCII-whitespace `trim` and substring `includes`.
- `seqs.dfy` (module `Seqs`) holds `Array.prototype.filter`.
- `events.dfy` (module `Events`) holds the `Event` record, the ascending date-and-time order, and the stable sort that both sides apply with that comparator.
- `categorizer.dfy` (module `Categorizer`) holds `categorizeEvent`.
- `event_store.dfy` (module `EventStore`) holds the module-level `events` array as the class `Store`, and the four handler bodies (create, list, archive, delete) as its methods. Each method returns the HTTP status and the JSON it sends.
- `client_list.dfy` (module `ClientList`) holds the list updates in `App`: after fetch, create, delete and archive, plus `filteredEvents`.
- `event_form.dfy` (module `EventForm`) holds the form state as the class `Form`, with `handleChange` and `handleSubmit`.

The sort key is the string `${date}T${time}` that both comparators build. The
model orders it lexicographically. That matches `getTime()` on the fixed-width
`YYYY-MM-DD` and `HH:MM` values the form produces, in a time zone without
daylight-saving changes. The model of
`Array.prototype.sort` is a stable insertion sort. Its contract keeps the
length and the multiset of events, and lemmas about it prove that:

- it is sorted;
- it is a permutation of its input;
- events on the same instant keep their order.

Together these fix its result uniquely.

The client's delete waits for the server before it removes the event locally
(client/src/App.tsx:76-77), and leaves the list as it was when the call fails.

## Model

| member | source | states |
|---|---|---|
| Text.TrimStart | client/src/components/EventForm.tsx:23 | `trim`, leading half: the result is a suffix of the input, everything dropped is whitespace, and the result does not start with whitespace |
| Text.TrimEnd | client/src/components/EventForm.tsx:23 | `trim`, trailing half: the result is a prefix of the input, everything dropped is whitespace, and the result does not end with whitespace |
| Text.Trim | client/src/components/EventForm.tsx:23 | `trim`: the result is the input with its leading and trailing whitespace cut off, a middle slice with only whitespace before and after it; it neither starts nor ends with whitespace, and it is empty exactly when the input is all whitespace (the empty string included) |
| Text.Lower | server/src/index.ts:39 | `toLowerCase`: the result differs from the input only in the case of ASCII letters and holds no upper-case letter |
| Text.Contains | server/src/index.ts:41-42 | `includes`: the empty word is always found and a word longer than the text never is; Text.ContainsIffOccurs gives the full meaning |
| Text.ContainsIffOccurs | server/src/index.ts:41-42 | `content.includes(word)` holds exactly when `word` occurs at some position of `content` |
| Text.LowerOfCaseVariants | server/src/index.ts:39 | two strings that differ only in the case of ASCII letters have the same `toLowerCase` |
| Seqs.Filter | client/src/App.tsx:77 | `filter` never lengthens its input; Seqs.FilterSelectsPassing and Seqs.FilterMultiplicity give what it keeps and in which order |
| Seqs.Passing | client/src/App.tsx:96-99 | the positions whose elements pass the test, strictly increasing, each passing position listed and no other |
| Seqs.FilterSelectsPassing | client/src/App.tsx:96-99 | `filter` returns exactly the elements at the passing positions, in increasing order of position |
| Seqs.FilterAppend | client/src/App.tsx:77 | `filter` distributes over concatenation |
| Seqs.FilterMultiplicity | client/src/App.tsx:96-99 | `filter` keeps every passing element as often as it occurs and drops every failing one |
| Seqs.FilterDropsAt | client/src/App.tsx:77 | when only one position fails the test, `filter` removes exactly that element and keeps the rest in order |
| Seqs.RemoveAt | server/src/index.ts:103 | `splice(i, 1)` shortens the array by one and removes exactly one occurrence of the element at `i` |
| Events.LexLeTotal | server/src/index.ts:73-77 | any two instants are comparable |
| Events.LexLeTransitive | server/src/index.ts:73-77 | the order on instants is transitive |
| Events.LexLeAntisymmetric | server/src/index.ts:73-77 | two instants that are each not after the other are equal |
| Events.SortByWhen | server/src/index.ts:73-77 | the sort keeps the length and the multiset of events |
| Events.SortByWhenSorted | server/src/index.ts:73-77 | after the sort every event is not after any later one |
| Events.SortByWhenStable | client/src/App.tsx:37-41 | events on the same instant keep their relative order through the sort |
| Events.SortKeepsUniqueIds | server/src/index.ts:73 | sorting does not put two events with the same id in the store |
| Categorizer.Content | server/src/index.ts:39 | the searched text is as long as title, space and notes (`notes || ""`) joined, differs from that only in letter case, and has no upper-case letter |
| Categorizer.SomeIncluded | server/src/index.ts:41-42 | `words.some(w => content.includes(w))` holds exactly when some listed word is a substring |
| Categorizer.SomeIncludedIffMentions | server/src/index.ts:41-42 | the same test holds exactly when some listed word occurs at some position |
| Categorizer.Categorize | server/src/index.ts:26-45 | the label is one of three. It is Work exactly when a work keyword occurs in the lower-cased title-space-notes text. It is Personal exactly when no work keyword and some personal keyword occurs. It is Other exactly when neither list occurs |
| Categorizer.CategorizeIgnoresCase | server/src/index.ts:39 | changing the case of ASCII letters in the title or the notes does not change the label |
| Categorizer.CategorizeByParts | server/src/index.ts:39-44 | no keyword contains a space, so the label follows from the keywords found in the title and in the notes separately, work first |
| Categorizer.WorkKeywordInTitle | server/src/index.ts:30-41 | a work keyword in the title makes the event Work, whatever personal keywords the notes hold |
| Categorizer.NoKeywordIncluded | server/src/index.ts:41-44 | a keyword with a character missing from the text is not found |
| Categorizer.MeetingIsWork | server/src/index.ts:41 | "Team meeting" without notes is labelled Work |
| Categorizer.BirthdayIsPersonal | server/src/index.ts:42-43 | "Sister's birthday" without notes is labelled Personal |
| Categorizer.WalkIsOther | server/src/index.ts:44 | "Go for a walk" without notes is labelled Other |
| EventStore.FirstIndexOf | server/src/index.ts:97-101 | `find` / `findIndex`: the result is the first position holding the id, or none when no position holds it |
| EventStore.ArchiveById | server/src/index.ts:84-90 | an unknown id leaves the store as it is. Otherwise the first event with the id gets `archived` true with every other field kept, and every other position is unchanged. The length is kept and the flag only goes from false to true |
| EventStore.ArchiveIdempotent | server/src/index.ts:84-91 | archiving the same id twice leaves the same store as archiving it once |
| EventStore.ArchiveKeepsWellFormed | server/src/index.ts:90 | archiving keeps ids unique and every event's required fields and label |
| EventStore.DeleteById | server/src/index.ts:97-103 | an unknown id leaves the store as it is. Otherwise the store loses one event, exactly one copy of the first match; events before it stay in place and events after it move up by one |
| EventStore.Rejects | server/src/index.ts:50 | a body passes exactly when title, date and time are all present as non-empty strings; an absent one always rejects |
| EventStore.RejectsOnlyRequiredFields | server/src/index.ts:48-50 | two bodies with the same title, date and time get the same verdict: notes, id, archived and category never decide the 400 |
| EventStore.DeleteLeavesNoMatch | server/src/index.ts:97-103 | with unique ids, no event with the deleted id remains |
| EventStore.DeleteKeepsWellFormed | server/src/index.ts:103 | deleting keeps ids unique and every event well-formed |
| EventStore.AppendKeepsWellFormed | server/src/index.ts:66 | appending an event with a fresh id keeps the store well-formed |
| EventStore.SortKeepsWellFormed | server/src/index.ts:73 | sorting keeps the store well-formed |
| EventStore.Store.constructor | server/src/index.ts:24 | the store starts empty |
| EventStore.Store.Create | server/src/index.ts:47-69 | a body lacking title, date or time gets 400 with the message, and the store is unchanged. Otherwise exactly one event is appended and returned with 201. It has a fresh id, the body's title, date, time and notes, is not archived, and is labelled by the categoriser. The body's id, archived and category are ignored |
| EventStore.Store.List | server/src/index.ts:71-79 | the store is sorted in place: it becomes a sorted, stable permutation of its former contents, and that same sequence is sent with 200 |
| EventStore.Store.Archive | server/src/index.ts:81-92 | an unknown id gets 404 and the store is unchanged. Otherwise the first match is archived, every other event is unchanged, and the updated event is sent with 200 |
| EventStore.Store.Delete | server/src/index.ts:94-105 | an unknown id gets 404 and the store is unchanged. Otherwise the first match is spliced out, the others keep their order, and 201 is sent with the message |
| ClientList.AfterFetch | client/src/App.tsx:32-48 | on success the list becomes a sorted, stable permutation of the fetched events. On failure it is unchanged |
| ClientList.AfterCreate | client/src/App.tsx:55-72 | on success the list becomes a sorted permutation of the old list plus the created event, stable against appending. On failure it is unchanged |
| ClientList.AfterDelete | client/src/App.tsx:74-82 | on success the list holds exactly the old events whose id differs, each as often as before and in their original order (the k-th kept event is the one at the k-th position whose id differs). On failure it is unchanged |
| ClientList.ReplaceId | client/src/App.tsx:87-89 | `map`: the length is kept, every entry with the id becomes the updated event, every other entry stays at its position |
| ClientList.AfterArchive | client/src/App.tsx:84-94 | the length and every entry with another id are kept. On success each entry with the id becomes the returned event. On failure the list is unchanged |
| ClientList.Visible | client/src/App.tsx:96-99 | with "all" the whole list. With one category exactly the events of that category, each as often as in the list and in list order (the k-th shown event is the one at the k-th position of that category) |
| ClientList.DeleteMirrorsServer | client/src/App.tsx:77 | on a list with unique ids, the client's removal gives the same list as the server's splice |
| ClientList.ArchiveMirrorsServer | client/src/App.tsx:87-89 | on a list with unique ids, putting the returned event in place gives the same list as the server's in-place archive |
| EventForm.Accepts | client/src/components/EventForm.tsx:23 | the form passes exactly when the title has a non-whitespace character and date and time are non-empty |
| EventForm.WithField | client/src/components/EventForm.tsx:57-59 | the named field takes the value and the other three are kept |
| EventForm.Decimal | client/src/components/EventForm.tsx:43 | the time stamp is written as a non-empty string of decimal digits that denotes the number, with no leading zero unless the number is 0 |
| EventForm.TempId | client/src/components/EventForm.tsx:43 | the placeholder id is "temp-id-" followed by at least one decimal digit and nothing else |
| EventForm.PlaceholderFor | client/src/components/EventForm.tsx:33-46 | the event passed on has the given id, the trimmed title and notes, the same date and time, `archived` false and the category "uncategorized"; for an accepted form the title is non-empty, and title and notes neither start nor end with whitespace |
| EventForm.AcceptedFormPassesServer | client/src/components/EventForm.tsx:23-48 | a body built from an accepted form passes the server's required-field check |
| EventForm.BlankTitleOnlyClientRejects | client/src/components/EventForm.tsx:23 | a whitespace-only title with a date and a time is rejected by the form but passes the server's check (server/src/index.ts:50) |
| EventForm.Form.constructor | client/src/components/EventForm.tsx:12-17 | the form starts with four empty fields |
| EventForm.Form.HandleChange | client/src/components/EventForm.tsx:57-59 | only the named field changes |
| EventForm.Form.HandleSubmit | client/src/components/EventForm.tsx:20-55 | a rejected form yields the required-fields toast and keeps its contents. An accepted form hands on an event with the trimmed title and notes, the same date and time, `archived` false, an id starting "temp-id-" and the category "uncategorized", and then all four fields are reset |

## Left out

- Express wiring, CORS, dotenv, `app.listen`, the root greeting route and `console.log`: plumbing with no state of the core.
- `uuidv4()` becomes the `freshId` parameter of `Store.Create`. Its precondition says the id is not yet in the store.
- `Date.now()` becomes the `now` parameter of `Form.HandleSubmit`.
- Date parsing: `new Date(...).getTime()` becomes a lexicographic order on `${date}T${time}`. Invalid dates (NaN comparisons) and the time zone are not modelled.
- `toLowerCase` and `trim` cover ASCII only. Unicode case mapping and Unicode whitespace are not modelled.
- Request bodies are modelled as strings that may be absent. Numbers, objects and other non-string JSON values in `title`, `date`, `time` or `notes` are not modelled.
- The network calls of `client/src/api/eventService.ts` become a `Reply` that is either the server's JSON or a failure.
- React hooks, the loading flags, async ordering, the toasts and their timers are left out.
- The try/catch around `handleEventCreated` in `handleSubmit` is left out: the call returns before the request settles, so that catch never sees a failed request.
- Events are values, so the aliasing between the `find` result and the array slot is not modelled. The in-place write is stated as a change of the stored sequence.
- EventCard, EventList, Header, Footer and the toast component are presentation and are left out.
- Events.SortByWhen: the model is one particular stable sort. `Array.prototype.sort` is only required to be stable, but sorted, permutation and stable together fix the result, so any conforming engine gives the same list.
