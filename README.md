# hr-bot, modelled in Dafny

hr-bot is a Discord bot that keeps an Airtable table of attendance counters. It
takes a snapshot of the guild's member presences 10 seconds after start-up, and
then at a random minute of each hour from 10 to 17 on weekdays and from 10 to 13
on Saturdays. It sorts the
members who are not bots and not excluded into four buckets (online, idle,
do-not-disturb, offline), flattens the buckets into a status map keyed by user ID, and hands that map to `syncToAirtable`. The sync reads
every row of the table and indexes the rows by their "User ID" cell. It then turns
each entry into one write that bumps the counter column of its status: an update
of the user's row, or a new row for a user the table does not know yet. The writes
go out in batches of ten. Independently, a message from a non-bot author whose
lower-cased text contains a "brb" trigger syncs a one-entry map that bumps its
author's "BRBs" counter.

The project holds these modules:

- `Wrappers` (`wrappers.dfy`): `Option` and `Result`.
- `JsObject` (`js_object.dfy`): a JavaScript object with string keys, as a sequence
  of entries in insertion order. Assignment replaces a value in place and appends a
  new key, so `Object.entries` order is kept.
- `JsString` (`js_string.dfy`): the string operations the code uses. These are
  `trim` with JavaScript's whitespace set, `split` on one character, `join`,
  `toLowerCase`, `includes`, and number-to-string.
- `AirtableSync` (`airtable_sync.dfy`): `fetchAllRecords` and `syncToAirtable`.
- `Server` (`server.dfy`): the exclusion list, the presence snapshot, the cron slot
  table and the `messageCreate` handler.

The loops of the source are methods with loop invariants. Most are proved equal
to a specification function, and the properties are lemmas about those functions.
`ScheduleSlots` and `SendBatches` state their properties directly in their
postconditions.

Some inputs are parameters rather than calls:

- The answers of the Airtable read requests are a `Conversation`: every answer but
  the last names a next page, and the last is either a page without an offset or a
  failure.
- Whether each write request goes through is a function `succeeds` of the batch
  number.
- The values `Math.random()` returns are a sequence of reals in [0, 1).
- The current time is the string `now`.
- The fetched members, the message and `UNAVAILABLE_MEMBER_IDS` are plain values.

Some facts about the code that the model keeps:

- The code has no working-hours check. Apart from one snapshot 10 seconds after
  start-up, only the cron slots decide when a snapshot is taken.
- The Saturday loop covers the hours 10 through 13 inclusive, and its 13 o'clock
  slot draws from minutes 1..29.
- The brb triggers are "brb", "back in a bit", "taking a break", "brb 30" and
  "brb 10".
- The brb path does not consult the exclusion list.
- A status other than the four buckets makes the push throw, which abandons the
  whole snapshot. It is not mapped to "offline" or dropped.

## Model

| member | source | states |
|---|---|---|
| `Server.ParseExclusions` | server.js:16-18 | An unset or empty variable gives no IDs. Otherwise there is one ID per comma-separated piece (the comma count plus one), and ID i is the trim of piece i. So no ID holds a comma, and none starts or ends with whitespace. |
| `Server.ParseExclusionsJoin` | server.js:16-18 | Parsing a comma-joined list of IDs, each padded with whitespace on either side, gives back exactly the IDs. |
| `Server.PaddedPiece` | server.js:17 | A clean ID padded with whitespace holds no comma, and its trim is the ID. |
| `Server.BucketMembers` | server.js:51-71 | The bucketing loop succeeds iff no considered member has a presence without a bucket. On success the buckets are the considered members of each presence, in fetch order, with the global name, or else the username, as the name and a missing presence counted as "offline". On failure the error is the presence of the first member that throws. |
| `Server.BuildStatusMap` | server.js:73-81 | The nested loops produce the status map of the buckets: the idle, dnd, offline and online buckets written in that order, a later write replacing an earlier one. |
| `Server.PutBucketsStep` | server.js:74 | Writing the buckets of a list of statuses is writing all but the last one, then the last one. |
| `Server.WriteBucket` | server.js:75-80 | The inner loop writes the bucket's users into the map one after another. |
| `Server.StatusMapLayers` | server.js:74 | The status map is the four buckets put in the order idle, dnd, offline, online. |
| `Server.PutAllHas` | server.js:75-80 | After a bucket is written, a key is present iff it was present before or belongs to a user of the bucket. |
| `Server.PutAllOther` | server.js:75-80 | Writing a bucket leaves the entries of users outside it unchanged. |
| `Server.PutAllDistinct` | server.js:75-80 | Writing a bucket keeps the keys distinct. |
| `Server.PutAllGet` | server.js:75-80 | After a bucket with distinct IDs is written, each of its users maps to its name and the bucket's status. |
| `Server.SelectedFrom` | server.js:60-71 | Every entry of a bucket is the reference of a considered member with that presence. |
| `Server.SelectedHas` | server.js:60-71 | Every considered member is in the bucket of its presence. |
| `Server.SelectedDistinct` | server.js:60-71 | Members with distinct IDs give buckets with distinct IDs. |
| `Server.SelectedIds` | server.js:60-71 | An ID is in a bucket iff a considered member with that ID has that presence. |
| `Server.StatusMapKeys` | server.js:60-81 | When nothing throws, the status map's keys are distinct, and a key is present iff it is the ID of a considered member. |
| `Server.StatusMapEntries` | server.js:60-81 | With distinct member IDs and nothing thrown, each considered member maps to its display name and presence, and no other member has an entry. |
| `Server.SnapshotWrites` | server.js:60-83 | With distinct member IDs and nothing thrown, every considered member gets the write of its presence's counter, under its ID and display name, among the snapshot's writes (airtableSync.js:51-95). Every write is the write of some considered member. |
| `Server.MemberWrite` | server.js:60-83 | The write of one considered member is among the snapshot's writes. |
| `Server.WriteOfMember` | server.js:60-83 | Each of the snapshot's writes is the write of a considered member. |
| `Server.EntryOfMember` | server.js:60-81 | A considered member with a bucketed presence maps to its display name and presence. |
| `Server.EntryInLayers` | server.js:73-81 | A user found in only one bucket keeps that bucket's entry through all four layers. |
| `Server.CollectStatuses` | server.js:51-81 | The snapshot gives a status map iff no considered member's presence lacks a bucket, and that map is the status map of the members' buckets. |
| `Server.SendStatusMessage` | server.js:42-87 | If a member throws, no request is made. Otherwise request i carries batch i of the `Chunks` of the writes for the snapshot's status map against the table as read, so there are ceil(n/10) requests and all but the last hold 10 records. Every request has 1..10 records and the method its records call for, and the failures are exactly the unsuccessful batches. |
| `Server.RandomInt` | server.js:34-36 | `Math.floor(r * (max - min + 1)) + min` with r in [0, 1) lies in min..max. |
| `Server.ScheduleSlots` | server.js:95-111 | There are 12 slots. Slots 0..7 are weekday ("1-5") slots for the hours 10..17, and slots 8..11 are Saturday ("6") slots for the hours 10..13. Each slot's minute is what its hour's range and draw give. Every minute is in 1..59, at 13 o'clock in 1..29, and at 14 o'clock in 31..59, so no slot is on the full hour or between 13:30 and 14:30. |
| `Server.SlotAvoidsLunch` | server.js:96-101 | A slot inside those ranges is never on the full hour and never between 13:30 and 14:30. `ScheduleSlots` applies it to every slot of the table. |
| `Server.SomeTriggerIn` | server.js:121 | The result is true iff some trigger occurs in the content. |
| `Server.IsBrbAnnouncement` | server.js:119-121 | The result is true iff the lower-cased content holds one of the five triggers. |
| `Server.BrbIgnoresCase` | server.js:119-121 | Lower-casing a message first does not change whether it is an announcement. |
| `Server.BrbStatusMap` | server.js:116-133 | There is a status map iff the author is not a bot and the message is an announcement. The map has the author's ID as its only key, under the display name and status "brb". |
| `Server.BrbTriggersReduce` | server.js:120-121 | "brb 30" and "brb 10" add nothing to "brb": the match is "brb", "back in a bit" or "taking a break". |
| `Server.BrbMakesOneWrite` | server.js:128-133 | An announcement makes one write, to the "BRBs" counter, in a single batch. The batch is a PATCH iff the author has a row with an id, otherwise a POST. |
| `Server.MessageCreate` | server.js:116-134 | A bot's message or a message without a trigger makes no request. Otherwise exactly one request carries the announcement's write. It is a PATCH iff the author has a row with an id in the table as read, otherwise a POST, and it is reported failed iff it does not succeed. |
| `AirtableSync.FetchAllRecords` | airtableSync.js:15-35 | The read loop returns the rows of all pages in order, or none at all if any request fails. |
| `AirtableSync.BuildIndex` | airtableSync.js:40-46 | The loop computes the index of the rows by their User ID cell. |
| `AirtableSync.NumberKeys` | airtableSync.js:42-44 | A number cell is indexed under its decimal text. Distinct numbers get distinct keys, and a number shares its key with the text cell that spells it. |
| `AirtableSync.IndexLaterWins` | airtableSync.js:40-46 | A key is indexed iff some row has it as a truthy User ID, and it maps to the last such row. |
| `AirtableSync.IndexHasKey` | airtableSync.js:40-46 | For one key: it is indexed iff some row has it as a truthy User ID. |
| `AirtableSync.IndexHoldsLast` | airtableSync.js:40-46 | For one key: an indexed key maps to the last row that carries it. |
| `AirtableSync.IndexStep` | airtableSync.js:41-45 | A row with a truthy User ID overrides its key. Any other row leaves the index as it was. |
| `AirtableSync.CounterField` | airtableSync.js:53-73 | There is a counter column iff the status is idle, dnd, offline, online or brb. It is never one of the User ID, User Name or Last Updated columns. |
| `AirtableSync.CounterFieldInverse` | airtableSync.js:55-71 | Each status maps to its own column, and each column back to its status. |
| `AirtableSync.Increment` | airtableSync.js:77-81 | A missing cell becomes 1, and a number n becomes n + 1. |
| `AirtableSync.UpdateFor` | airtableSync.js:51-94 | There is a write iff the status has a counter. For a known user the write has the row's id and exactly the counter (one up) and "Last Updated". For an unknown user it has no id and exactly User ID, User Name, the counter at 1 and "Last Updated". |
| `AirtableSync.MappedEntries` | airtableSync.js:73 | The entries kept are exactly those whose status has a counter. |
| `AirtableSync.UpdatesFollowEntries` | airtableSync.js:51-95 | There is one write per counted entry and none for the others, in status-map order. |
| `AirtableSync.BuildUpdates` | airtableSync.js:48-95 | The loop over `Object.entries` computes the writes of the status map. |
| `AirtableSync.ConcatAppend` | airtableSync.js:97-100 | Concatenation distributes over appended batch lists. |
| `AirtableSync.ChunksShape` | airtableSync.js:97-100 | The batches concatenate back to the writes. Each holds 1..10 writes, all but the last hold 10, and there are ceil(n/10) of them. |
| `AirtableSync.Chunk` | airtableSync.js:97-100 | The `i += 10` loop computes the batches. |
| `AirtableSync.EveryHasId` | airtableSync.js:104 | The result is `batch.every((r) => r.id)`: true iff every record has a non-empty id. |
| `AirtableSync.MethodFor` | airtableSync.js:104-106 | The method is PATCH iff every record of the batch has an id. |
| `AirtableSync.SendBatches` | airtableSync.js:102-116 | Every batch is sent in order with its method, whatever happened to the batches before it. The failed list holds exactly the batches that did not succeed, ascending. |
| `AirtableSync.SyncToAirtable` | airtableSync.js:37-117 | Request i carries batch i of the `Chunks` of the status map's writes against the table as read. So the requests carry exactly the writes, in order, in ceil(n/10) requests of 1..10 records, all but the last holding 10. Each request uses `MethodFor` of its records, and the failures are exactly the unsuccessful batches. |
| `AirtableSync.FetchFailureCreatesAll` | airtableSync.js:31-34 | When a read request fails, on the first page or any later one, every write creates a row and every batch is a POST. |
| `AirtableSync.ConcatMember` | airtableSync.js:97-100 | An element of a batch is one of the writes. |
| `AirtableSync.MixedBatchIsPosted` | airtableSync.js:104-106 | As written, a known and a new user share one batch. It goes out as a POST although its first record names an existing row. |
| `AirtableSync.WithIds` | airtableSync.js:104 | The selected writes all come from the input and all name an existing row. |
| `AirtableSync.WithoutIds` | airtableSync.js:104 | The selected writes all come from the input and none names an existing row. |
| `AirtableSync.SplitByKind` | airtableSync.js:104 | Separating the writes with ids from those without loses none and invents none, counting repeats. |
| `AirtableSync.HomogeneousBatchesFit` | airtableSync.js:97-106 | Batching by kind keeps every write, holds 1..10 writes per batch, and gives every batch a method that fits all of its records. |
| `AirtableSync.SyncToAirtableByKind` | airtableSync.js:37-117 | The sync with batching by kind carries exactly the writes, with 1..10 per request, and every request's method fits all of its records. |
| `JsObject.KeysAt` | server.js:73-81 | An object lists one key per property, in insertion order. |
| `JsObject.GetAfterPut` | server.js:76 | After `o[k] = v`, a lookup of k gives v and a lookup of any other key gives what it gave before. |
| `JsObject.GetPut` | server.js:76 | After `o[k] = v`, a key is present iff it is k or was present before. |
| `JsObject.Get` | server.js:76 | A lookup finds a value iff the key is present. |
| `JsObject.GetEntry` | server.js:76 | What a lookup finds is the value of a property with that key. |
| `JsObject.GetDistinct` | server.js:76 | With distinct keys, a lookup finds the value of the one property with that key. |
| `JsObject.Put` | server.js:76 | After `o[k] = v`, k maps to v and every other key keeps its value. |
| `JsObject.PutKeys` | server.js:76 | Assigning an existing key keeps the key order, and a new key is appended. |
| `JsObject.PutDistinct` | server.js:76 | Assignment keeps the keys distinct. |
| `JsString.LeadingSpace` | server.js:17 | The count of leading whitespace: every character before it is whitespace, and the next one, if any, is not. |
| `JsString.TrailingSpace` | server.js:17 | The count of trailing whitespace: every character after the cut is whitespace, and the one before it, if any, is not. |
| `JsString.Trim` | server.js:17 | The result is a slice of the input with only whitespace around it, and it neither starts nor ends with whitespace. |
| `JsString.TrimKeepsOut` | server.js:17 | A character missing from a string is missing from its trim. |
| `JsString.TrimPadded` | server.js:17 | `trim` of whitespace + t + whitespace is t, when t is clean at both ends. |
| `JsString.Split` | server.js:17 | There is one more piece than there are separators, and no piece holds the separator. |
| `JsString.JoinSplit` | server.js:17 | Joining the pieces of a split gives back the string. |
| `JsString.SplitJoin` | server.js:17 | Splitting a join of separator-free pieces gives back the pieces. |
| `JsString.SplitPiece` | server.js:17 | A string without the separator splits into itself alone. |
| `JsString.SplitAfterPiece` | server.js:17 | Splitting p + separator + tail gives p followed by the pieces of tail. |
| `JsString.LowerCaseIdempotent` | server.js:119 | After `toLowerCase` no ASCII capital is left, so lower-casing again changes nothing. |
| `JsString.Contains` | server.js:121 | `includes` is true iff the text occurs at some position. |
| `JsString.OccursInTail` | server.js:121 | An occurrence in the tail of a string is an occurrence one place further on in the whole. |
| `JsString.NatToStringDigits` | airtableSync.js:42-44 | `String(n)` of a natural is a non-empty run of digits, two or more from 10 on. |
| `JsString.NatToStringInjective` | airtableSync.js:42-44 | Distinct naturals have distinct decimal renderings. |
| `JsString.IntToStringInjective` | airtableSync.js:42-44 | Distinct integers have distinct decimal renderings. |
| `JsString.ContainsTransitive` | server.js:121 | A text holding t holds every text that t holds. |
| `Server.SelectedSnoc` | server.js:60-71 | One more member joins the end of the bucket of its presence, and only if it is considered. |
| `Server.BucketOfStatus` | server.js:51-56 | The bucket of each of the four statuses holds the considered members with that presence. |
| `Server.BucketFields` | server.js:51-56 | Each of the four statuses names its own bucket. |

## Left out

- The Discord client and guild/channel lookups are left out: login, the event wiring of the `ready` and `error` handlers, presence fetching. Failures of these lookups only log and return.
- cron, the `Asia/Kolkata` time zone and time itself are left out. The slot table is modelled; firing a slot and the 10-second `setTimeout` snapshot are not.
- The Express `/status` route and `port` are outside the core.
- axios, the URL, the headers and the token are left out. Read answers and write outcomes are parameters, HTTP status and error bodies are not modelled, and `console.error` logging is dropped.
- An unexpected `response.data` shape (no `records` array) would throw inside `fetchAllRecords` and give []. The model's pages always carry a record list.
- Concurrency is left out: overlapping snapshots, or a message arriving mid-snapshot. Each model call is sequential.
- `Server.RandomInt` computes over exact reals. Floating-point rounding of `Math.random() * width` is not modelled.
- `JsString.LowerCase` maps ASCII letters only. JavaScript's full Unicode case mapping is not modelled.
- `JsString.IntToString` writes numbers in plain decimal. JavaScript switches to exponent notation from 1e21, and fractional cell values are not modelled: cells are text or integers.
- `JsObject.Put` keeps insertion order for every key. JavaScript lists array-index keys (integers below 2^32 - 1) first; Discord IDs are larger, so this does not arise for them.
- Keys that reach `Object.prototype` (`__proto__`, `constructor`) are not modelled. For such a key, `recordsByUserId[userId]` could be truthy without an entry.
- `Server.StatusMapEntries` assumes the fetched members have distinct IDs, as the keys of the fetched collection do. The methods need no such assumption.
- `AirtableSync.Increment` does not state the text-cell case in its contract. Its body models it: a non-empty text gets "1" appended.

## Findings

| source | as written | input that shows it | evidently intended | confidence | as-written member | corrected member |
|---|---|---|---|---|---|---|
| airtableSync.js:97-106 | The writes are cut into batches of ten in status-map order. A batch is sent as PATCH only when every record has an id, otherwise as POST, so a batch mixing updates of existing rows with new rows is POSTed with records that carry ids. | A status map with user "101" (online, already in the table as row "rec1") and user "202" (idle, not in the table) gives one batch of two records sent as a POST. | Updates of existing rows go out as PATCH and new rows as POST, each in batches of at most ten. | medium, not executed | `AirtableSync.MixedBatchIsPosted` | `AirtableSync.SyncToAirtableByKind`, proved through `AirtableSync.HomogeneousBatchesFit` |

`AirtableSync.SyncToAirtable`, and through it `Server.SendStatusMessage` and
`Server.MessageCreate`, model the batching as written.
`AirtableSync.SyncToAirtableByKind` is the corrected sync beside them.
